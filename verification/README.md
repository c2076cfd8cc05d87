# A model of the bit-packed serialize streams

The repository serializes a message by running one list of operations over one of three streams: a write stream packs
bits least significant first through a 64-bit scratch word, a read stream takes them back from untrusted bytes, and a
measure stream counts the bits a write would need. This project models those streams, the two bit engines below them,
the two-lane 128-bit integers they use for wide fields, and the derivation of field widths, and proves that together
they keep the format's principle: every value has exactly one encoding, and a reader refuses everything else.

How it is laid out:

* `bits.dfy`, `words.dfy`: bit strings, their numbers, and Go's fixed-width words, all over mathematical integers. Words
  wrap explicitly and shifts lose bits explicitly. `utf8.dfy` is well-formed UTF-8 (section 4 of RFC 3629), proved to
  be exactly the shortest forms of the sequences of Unicode scalar values.
* `wire.dfy`: the format itself. An operation with its declaration is an `Op`, a nested object is a list of them, and
  `Encode`, `Take`, `TakeEnd`, `TakePacket` and `Measure` say what each puts on the wire, what a reader takes from any
  bits at any position (value, refusal and where it stops), and what a measure counts. No engine is mentioned here.
* `codec.dfy`, `ladder.dfy`, `messages.dfy`: the theorems about that format, over every schema, every value list and every byte string.
* `layout.dfy`: the same format written out in numbers, operation by operation: the values each carries, the bits each
  puts on the wire, what a reader makes of any bits with every reason and position, and what a measure counts.
* `packing.dfy`, `write_stream.dfy`, `bit_writer.dfy`: the two writers, as classes over an array. A ghost `written`
  holds every bit written, and `Packing.Image` ties it to the stored words, the scratch word and the untouched rest of
  the buffer. A write that does not fit panics in Go; here that trap is the result `ok == false`, and the contracts say
  what the trap leaves behind.
* `destinations.dfy`: the variables a caller reads into, their types, and what each holds after any read, refused or not.
* `bit_reader.dfy`, `read_stream.dfy`: the reader with its slack and tail windows over a backing array longer than its
  data, and the latching stream on top of it. Every read is proved to do exactly what `Wire.Take` says, so a body that
  returned another reason, consumed other bits or touched its destination on a refusal would not verify.
* `measure_stream.dfy`, `runs.dfy`, `lists.dfy`: the measure, programs of reads and refusals over a store of variables,
  packets from one end to the other, and the sentinel-driven loops of `Continue` and `Until`.
* `int128.dfy`, `params.dfy`, `widths.dfy`: 128-bit arithmetic, width derivation, fixed point, and width changes.
* `programs.dfy`: messages whose later fields depend on the values already read, and callers that refuse a value. A
  program says what comes next given the values so far, with any bound on the number of its fields.
* `rounding.dfy`, `quantization.dfy`, `accuracy.dfy`, `binary32.dfy`: the arithmetic of compressed floats. Binary32
  rounding to nearest, subnormals included, is defined over the reals and proved to have the properties the laws use;
  the laws hold over any rounding with them. `accuracy.dfy` says what a code and a decode mean: a code is nearest to its
  value, a decode is its code's place in the range, and a decode is written as the code it came from. `binary32.dfy`
  proves that of binary32 itself, and works out values that one rounding fewer would get wrong.
* `compressed_float.dfy`, `copy_string.dfy`: compressed floats on the streams, and `CopyString`. A compressed float is
  on the wire the ranged integer of its code (`CodeField`), which is how it stands in a schema; with the test of its
  decode it is a program (`CompressedProgram`).

Where the code and its documentation disagree, the model follows the code:

* `write_stream.go:69-72` says a write that does not fit is checked for the whole operation before any of it is written.
  `SerializeIntRelative` does not: it writes its flags one at a time. `WriteStream.SerializeIntRelative` proves exactly
  what a trap leaves behind, the flags that fit, and that nothing is left behind exactly when there was no room at all;
  `LadderTraps` is a stream that gets there, with 63 of its 64 bits written and a difference of 2.
* `write_stream.go:264` and `STANDARD.md:315` say a 64-bit fixed-point field is a ranged 64-bit integer over its raw
  bounds. That holds exactly when the raw bounds are ordered as `int64`; an unsigned format whose raw bounds straddle
  2^63 makes the ranged declaration a bad one (`Widths.FixedIsRanged`, `Widths.StraddlingBounds`).
* `STANDARD.md:21-24` says a reader refuses anything a conforming writer cannot produce. For compressed floats with more
  than 2^24 codes it does not: a writer emits only the largest code and codes that are themselves binary32 values
  (`Quantizations.WrittenCodesAreBinary32`), a reader takes every code up to the largest with a finite decode, and two
  codes that round to one float decode alike (`TwinCodes`). `UnwrittenCodeAccepted` is such a code.

## Model

| member | source | states |
|---|---|---|
| Codec.Canonical | STANDARD.md:21-24 | Whatever bits a reader accepts for a field, at any position, are the bits a writer puts there for the value returned, and that value is legal |
| Codec.CanonicalAll | STANDARD.md:21-24 | The same for every list of fields, nested objects included |
| Codec.RoundTrip | STANDARD.md:21-24 | A legal value's bits, standing anywhere in any stream, read back as that value and are consumed exactly |
| Codec.RoundTripAll | STANDARD.md:21-24 | The same for every message, from any starting bit position |
| Codec.NumericReads | read_stream.go:93-134 | An accepted offset field is within its span and stands in the stream as its encoding |
| Codec.NumericWrites | write_stream.go:184-215 | An encoded number in range is accepted and is the number written |
| Codec.NumericIsSized | serialize.go:295-322 | Every declaration's width holds its whole span |
| Codec.AlignReads | read_stream.go:479-500 | An accepted align consumed exactly the zero padding to the next byte boundary |
| Codec.BlobReads | read_stream.go:410-420 | An accepted byte block is the align and the bytes it returned |
| Codec.BlobWrites | write_stream.go:453-460 | A written byte block reads back whole |
| Codec.TextReads | read_stream.go:439-469 | An accepted string is legal, and its length, align and payload are those of its encoding |
| Codec.TextWrites | write_stream.go:467-484 | A legal string's bits read back as that string |
| Codec.BucketsPartition | stream.go:282-288 | The five buckets begin at 2, 7, 24, 281 and 4378 and end at 69914, and every difference between lies in exactly one |
| Codec.LadderReads | read_stream.go:598-619 | From any rung, the bits the ladder accepted are those of the value it returned |
| Codec.LadderWrites | write_stream.go:533-543 | From any rung, the ladder written for a value decodes back to it |
| Codec.RelativeReads | read_stream.go:581-620 | The reader accepts no bit string for a pair of values but the one a writer emits |
| Codec.RelativeWrites | write_stream.go:519-544 | The ladder of every legal pair decodes back to the current value |
| Messages.PacketRoundTrip | STANDARD.md:21-24 | A written packet is accepted with the values written and consumed to its last bit |
| Messages.PacketCanonical | STANDARD.md:21-24 | An accepted packet is, byte for byte, the one packet of the values returned |
| Messages.PacketExact | STANDARD.md:21-24 | A reader accepts a byte string with given values if and only if they are legal and it is their packet |
| Messages.PacketsDiffer | STANDARD.md:21-24 | Different legal values never share a packet |
| Messages.FieldCut | read_stream.go:54-63 | An accepted field, read from the stream cut short anywhere, is unchanged or refused as past the end, never as anything else |
| Messages.FieldsCut | read_stream.go:54-63 | The same for every list of fields |
| Messages.PrefixRefused | read_stream.go:54-63 | Every strict byte prefix of a packet is refused as past_end |
| Messages.ExtensionRefused | read_stream.go:513-525 | Every extension of a packet by at least one byte is refused as trailing_data |
| Messages.LadderCost | measure_stream.go:243-256 | The cost added up rung by rung is the length of the ladder written |
| Messages.MeasureBounds | measure_stream.go:196-217 | A measure covers the write from every starting position and exceeds it by at most 7 bits for each align, bytes and string field, so by nothing where there is none |
| Messages.MeasureAllBounds | measure_stream.go:226-228 | The same for whole messages |
| Utf8.WellFormedIsUnicode | STANDARD.md:520-526 | A text is well formed if and only if it is the concatenation of the shortest forms, computed from the values, of Unicode scalar values |
| Utf8.ScalarsWellFormed | STANDARD.md:535-542 | Every sequence of scalar values has a well-formed text: no real character is refused |
| Utf8.TextsDiffer | STANDARD.md:535-542 | The text of a sequence of scalar values decodes to that sequence, so no two sequences share one |
| Layouts.BitsLayout | STANDARD.md:149-158 | Raw bits carry every number below the power of two of their width, 1 to 32 or to 64, least significant bit first |
| Layouts.WordLayout | STANDARD.md:160-182 | The flag is one bit and the words are 8, 16, 32, 64 and 128 raw bits of every number that fits |
| Layouts.FloatLayout | STANDARD.md:376-400 | A float is its 32 or 64 bits, legal exactly when without its sign it is below the infinity |
| Layouts.RangedLayout | STANDARD.md:216-239 | A ranged integer is its offset from the lower bound in the least width that holds the range, for every value in it |
| Layouts.FixedLayout | STANDARD.md:294-324 | A fixed-point field is the raw value's offset from the lower bound scaled by the fraction bits, in the least width of the scaled range, in a format that holds its bounds and fits its storage |
| Layouts.BytesLayout | STANDARD.md:496-504 | An align is zeros to the next multiple of 8, fewer than 8 of them, and a byte block is that and its bytes |
| Layouts.TextLayout | STANDARD.md:506-526 | A string is its length in the least width of the buffer's range, the align and its bytes, and is legal when they are the text of scalar values with no zero byte, shorter than the buffer |
| Layouts.RelativeLayout | STANDARD.md:335-360 | The seven tiers, each with its flags, its least difference, its payload width and its range of differences |
| Layouts.NumericRead | read_stream.go:93-134 | A field of a declared width is past the end, or is the one legal value written with those bits, or is refused as out of range, a float as non-finite, and consumed |
| Layouts.BadDeclaration | read_stream.go:67-72 | A declaration that no value is legal for is refused as out of range before anything is read |
| Layouts.AlignRead | read_stream.go:479-500 | An align is refused at a set bit of its padding, which it consumes |
| Layouts.BytesRead | read_stream.go:410-420 | A byte block is its align's refusal, or past the end behind the align, or its bytes |
| Layouts.TextRead | read_stream.go:439-469 | The refusals of a string in order: buffer size, length past the end, length past the buffer, padding, payload past the end, a zero byte, text that is not Unicode |
| Layouts.RelativeRead | read_stream.go:581-631 | After its unset flags a ladder is past the end, past its tier's span, outside the domain or not above the previous value, non-canonical in the absolute tier, or the value |
| Layouts.LadderRunsOut | read_stream.go:598-604 | A ladder whose flags run out is past the end where they do, and a negative previous value is refused first |
| Layouts.EndRead | read_stream.go:513-525 | An end is refused for a whole byte left, then for a set bit in what is left |
| Layouts.ObjectIsInline | STANDARD.md:506-515 | A nested object is written and measured exactly as its fields in place |
| Layouts.ObjectReadsInline | STANDARD.md:506-515 | A nested object is read as its fields in place: same refusal, same values, same end |
| Layouts.TakeConcat | read_stream.go:534-545 | Fields are read in order, and the first refusal is the whole object's |
| Layouts.MeasureLayout | measure_stream.go:196-258 | An align costs 7 bits, a byte block 7 more than its bytes, the tiers 1, 5, 8, 13, 18, 23 and 38, and every field of a declared width exactly that |
| Layouts.TextMeasure | measure_stream.go:203-212 | A string costs its length field, 7 bits and its bytes |
| Layouts.WorkedMessage | STANDARD.md:573-593 | The documented nine bytes of a two-character string, an align and a Q8.8 field are the packet of those values |
| Layouts.ReasonsClosed | serialize.go:202-209 | The nine reasons in their order, and every other number the caller's own refusal |
| Packing.ScratchIsMasked | write_stream.go:22-26 | No scratch bit at or above the pending count is set |
| Packing.ImageIsDetermined | write_stream.go:22-26 | The bits written determine the stored words, the scratch and the rest of the buffer |
| Packing.FlushedIsDetermined | write_stream.go:549-556 | The bits written determine the whole flushed buffer |
| Packing.FlushedPrefix | write_stream.go:561-563 | The bytes of a flushed packet are its bits and zero padding |
| Packing.MergeIsModular | write_stream.go:91-94 | Shifting a field up and or-ing it into the scratch is appending its bits, modulo 2^64 |
| Packing.MergeWithSpill | write_stream.go:94-98 | A field that completes the word stores the first 64 bits of what is pending and carries the rest, nothing when it ends the word |
| Packing.FieldMerges | write_stream.go:87-125 | Merging a masked field, and storing the word it completes, keeps the writer's state invariant |
| Packing.WordsCopied | write_stream.go:439-445 | Copying whole words of bytes at a word boundary keeps the invariant, with nothing pending |
| Packing.ImageFlushes | write_stream.go:549-556 | Storing the partial word zero fills it and leaves every byte past it as it was |
| Packing.WordOffset | write_stream.go:94-98 | The byte offset computed from the bit count with a shift and a mask is that of the current word |
| Packing.CopyBytes | write_stream.go:439-445 | A copy changes exactly the bytes it covers |
| Words.NegateAndMask | write_stream.go:491-497 | Negating the bit count and masking three bits is the distance to the next byte boundary |
| Words.OnesShifted | bitpacker.go:342-358 | All ones shifted down is the mask of the width |
| Words.UnpackLe | write_stream.go:94-98 | A word stored little endian is its bits in order |
| Words.FromLeIsBits | bitpacker.go:315-331 | A word loaded little endian is the number of its bits |
| Words.PutUint64 | write_stream.go:94-98 | The store changes exactly the word's eight bytes |
| WriteStreams.WriteStream.constructor | write_stream.go:46-50 | A new stream has written nothing over its buffer |
| WriteStreams.WriteStream.Reset | write_stream.go:54-62 | A reset stream has written nothing over its new buffer, whatever it held before |
| WriteStreams.WriteStream.TryWriteBits | write_stream.go:87-100 | Appends exactly the field's bits when they fit, and otherwise changes nothing |
| WriteStreams.WriteStream.TryWriteBits64 | write_stream.go:109-125 | The same for up to 64 bits with at most one spill |
| WriteStreams.WriteStream.WriteBits | write_stream.go:129-134 | A write that traps writes nothing |
| WriteStreams.WriteStream.WriteGroups128 | write_stream.go:222-229 | Two groups, low half first, append exactly the bits of the 128-bit offset |
| WriteStreams.WriteStream.WriteBytesStream | write_stream.go:423-449 | Head, copied words and tail append exactly the bits of every byte |
| WriteStreams.WriteStream.SerializeBits | write_stream.go:155-166 | The declared encoding whole, or a trap with nothing written |
| WriteStreams.WriteStream.SerializeBits64 | write_stream.go:171-180 | The declared encoding whole, or a trap with nothing written |
| WriteStreams.WriteStream.SerializeInt | write_stream.go:184-199 | The offset from the lower bound in the range's width, exact for every int32 range, or a trap with nothing written |
| WriteStreams.WriteStream.SerializeInt64 | write_stream.go:203-215 | The same for every int64 range |
| WriteStreams.WriteStream.SerializeInt128 | write_stream.go:236-248 | The same for every 128-bit range, ranges wider than 2^127 included |
| WriteStreams.WriteStream.SerializeUint128 | write_stream.go:254-259 | The 128 bits of the value whole, or a trap with nothing written |
| WriteStreams.WriteStream.SerializeFixed64 | write_stream.go:265-275 | The raw value's offset from the scaled lower bound whole, or a trap with nothing written |
| WriteStreams.WriteStream.SerializeFixed128 | write_stream.go:281-292 | The same for wide formats |
| WriteStreams.WriteStream.SerializeFloat32 | write_stream.go:323-329 | A finite value's bit pattern whole, or a trap with nothing written |
| WriteStreams.WriteStream.SerializeFloat64 | write_stream.go:333-339 | A finite value's bit pattern whole, or a trap with nothing written |
| WriteStreams.WriteStream.SerializeAlign | write_stream.go:491-497 | Zeros to the next byte boundary whole, or a trap with nothing written |
| WriteStreams.WriteStream.SerializeBytes | write_stream.go:453-460 | The align and the bytes whole, or a trap with nothing written |
| WriteStreams.WriteStream.SerializeString | write_stream.go:467-484 | Length, align and payload whole, or a trap with nothing written |
| WriteStreams.WriteStream.SerializeIntRelative | write_stream.go:519-544 | The ladder's encoding when it fits; otherwise exactly the flags that fit, so nothing if and only if there was no room at all |
| WriteStreams.LadderTraps | write_stream.go:69-77 | One bit of room and a difference of 2: the trap leaves one flag bit written |
| WriteStreams.WriteStream.Serialize | write_stream.go:155-339 | Every operation of a schema, by its declaration, appends exactly its encoding when there is room for it, and otherwise traps with a first part of it written |
| WriteStreams.WriteStream.SerializeObject | write_stream.go:510-512 | A nested object appends its fields' encodings in order and no bit of its own, or traps with a first part of them written, exactly when there is no room for them all |
| WriteStreams.WriteStream.WritePacket | write_stream.go:549-563 | Fields, flush and data hand on exactly the packet of the values |
| WriteStreams.WriteStream.Flush | write_stream.go:549-556 | The buffer holds the bits, zeros to the end of the last word, and is untouched past it; the stream itself is unchanged |
| WriteStreams.WriteStream.Data | write_stream.go:561-563 | The bytes handed on are the bits written, zero padded |
| Int128s.GroupsSplit | write_stream.go:222-229 | Splitting an offset at lane 64 is splitting its bits at 64 |
| BitWriters.BitWriter.PackBits | bitpacker.go:57-76 | Masks the value and appends exactly the field's bits, keeping word index and pending count at the bit count |
| BitWriters.BitWriter.WriteAlign | bitpacker.go:103-108 | Appends zeros to the next byte boundary |
| BitWriters.BitWriter.WriteBytes | bitpacker.go:114-144 | Head, copied words and tail append exactly the bits of every byte |
| BitWriters.BitWriter.FlushBits | bitpacker.go:162-169 | The buffer holds the bits, zeros to the end of the last word, and is untouched past it |
| BitWriters.MaskedField | bitpacker.go:57-62 | Masking a value to its width keeps the bits the field writes |
| BitWriters.TwoWriters | write_stream.go:22-26 | Any run of bit, align and byte-run writes through the two writers, from equal buffers, leaves equal buffers |
| BitWriters.BlockCopyEqualsPacking | write_stream.go:418-449 | The block-copy path and byte-by-byte packing leave the same buffer, scratch and bit count |
| BitWriters.SplitWrite | write_stream.go:102-108 | One wide write is any split of it into smaller pieces, low bits first |
| BitReaders.BitReader.constructor | bitpacker.go:252-256 | A new reader stands at bit 0 of its data and leaves the data alone |
| BitReaders.BitReader.Reset | bitpacker.go:272-280 | The same for a reader pointed at other data, with its tail filled when there is too little slack |
| BitReaders.BitReader.FillTail | bitpacker.go:287-291 | The tail holds the last bytes of the data, then zeros |
| BitReaders.BitReader.LoadBits | bitpacker.go:315-331 | For every data length, capacity and position, in bounds, and exactly the next bits of the data, whatever the slack holds |
| BitReaders.BitReader.LoadBits64 | bitpacker.go:342-358 | The same for up to 64 bits through the wider window |
| BitReaders.BitReader.TryReadBits | bitpacker.go:302-307 | Reads exactly when the bits are there, and otherwise consumes nothing |
| BitReaders.BitReader.ReadAlign | bitpacker.go:384-393 | Skips to the byte boundary and is true exactly when the padding is zero |
| BitReaders.BitReader.ReadSlice | bitpacker.go:398-402 | The next bytes of the data are the next bits, packed |
| BitReaders.FieldExact | bitpacker.go:315-331 | A window load from the buffer or from the tail gives the same bits of the data |
| BitReaders.WideFieldExact | bitpacker.go:342-358 | The same for the 12-byte window |
| BitReaders.ShiftAndMask | bitpacker.go:325-330 | Shifting down, truncating to 32 bits and masking takes the field's bits |
| BitReaders.WideShiftAndMask | bitpacker.go:350-357 | The shifted word, the dword above it and the mask take the field's bits, at every bit remainder, zero included |
| ReadStreams.ReadStream.constructor | read_stream.go:25-29 | A new stream stands at bit 0 with no refusal |
| ReadStreams.ReadStream.Reset | read_stream.go:34-37 | A reset clears the refusal and stands at bit 0 of the new data |
| ReadStreams.ReadStream.Latch | read_stream.go:46-51 | The first refusal stays and is what is returned |
| ReadStreams.ReadStream.Reject | read_stream.go:551-553 | The caller's refusal goes through the same latch |
| ReadStreams.ReadStream.Fail | read_stream.go:559-561 | A reason outside the closed list latches as rejected |
| ReadStreams.ReadStream.ReadBits | read_stream.go:54-63 | Takes what the format says or refuses as it says; on a refused stream nothing moves and the destination keeps its value |
| ReadStreams.ReadStream.SerializeBits | read_stream.go:67-72 | The same, a bad width being refused even on a healthy stream |
| ReadStreams.ReadStream.SerializeBits64 | read_stream.go:76-88 | The same for widths up to 64 |
| ReadStreams.ReadStream.SerializeInt | read_stream.go:93-111 | The same for a ranged int32: an offset past the span is refused, and a value returned is in range |
| ReadStreams.ReadStream.SerializeInt64 | read_stream.go:116-134 | The same for a ranged int64 |
| ReadStreams.ReadStream.LoadGroups128 | read_stream.go:140-149 | Two loads, low half first, are the whole 128-bit offset |
| ReadStreams.ReadStream.SerializeInt128 | read_stream.go:154-172 | The same for a ranged 128-bit integer, ranges wider than 2^127 included |
| ReadStreams.ReadStream.SerializeUint128 | read_stream.go:176-188 | The same for 128 raw bits |
| ReadStreams.ReadStream.SerializeFixed64 | read_stream.go:194-212 | The same for a fixed-point raw value within its scaled bounds |
| ReadStreams.ReadStream.SerializeFixed128 | read_stream.go:218-236 | The same for wide formats |
| ReadStreams.ReadStream.SerializeUint8 | read_stream.go:239-249 | The same for 8 raw bits |
| ReadStreams.ReadStream.SerializeUint64 | read_stream.go:270-279 | The same for 64 raw bits |
| ReadStreams.ReadStream.SerializeBool | read_stream.go:282-292 | The same for one bit |
| ReadStreams.ReadStream.SerializeFloat32 | read_stream.go:299-312 | The same for a bit pattern, refused as non-finite when its exponent field is all ones |
| ReadStreams.ReadStream.SerializeFloat64 | read_stream.go:317-330 | The same at 64 bits |
| ReadStreams.ReadStream.SerializeAlign | read_stream.go:479-500 | An aligned stream returns its latch; otherwise the padding is consumed and refused unless zero, and it can never run past the end |
| ReadStreams.ReadStream.SerializeBytes | read_stream.go:410-420 | The same for the align and the bytes |
| ReadStreams.ReadStream.SerializeString | read_stream.go:439-469 | The same for length, align and payload, a NUL being refused before malformed text |
| ReadStreams.ReadStream.RelativeResult | read_stream.go:625-631 | A reconstructed value is returned only when above the previous one and within int32 |
| ReadStreams.ReadStream.SerializeIntRelative | read_stream.go:581-620 | The loop over the buckets is the format's ladder, non-canonical absolute values refused |
| ReadStreams.ReadStream.SerializeEnd | read_stream.go:513-525 | A whole byte left is trailing data, then a set padding bit is refused, and an accepted end consumes everything |
| ReadStreams.ReadStream.Serialize | read_stream.go:67-330 | Every operation of a schema, by its declaration, moves the stream and its latch as the format says and leaves in its variable the value taken, or what it held before |
| ReadStreams.ReadStream.SerializeObject | read_stream.go:534-545 | A nested object takes its fields in order and stops at the first refusal, the variables of the fields behind it as they were |
| ReadStreams.ReadStream.ReadPacket | read_stream.go:513-545 | A whole packet is accepted exactly as the format says, with its values, or refused with its reason; the bit index and every variable are as the format says in both cases |
| Destinations.RefusedKeeps | read_stream.go:46-63 | A refused stream writes to no variable, an object's fields included |
| Destinations.AcceptedDelivers | read_stream.go:534-545 | An accepted read leaves exactly the value taken in its variable, whatever it held |
| Destinations.KeptHolds | read_stream.go:67-620 | What any read leaves in a variable is a value of its type |
| Runs.Terminal | read_stream.go:46-63 | After a refusal, no program of reads, ends, rejections and nested objects moves the stream, changes its reason or writes to any variable |
| Runs.TerminalStep | read_stream.go:46-63 | The same for any one step |
| Runs.FirstReasonWins | read_stream.go:46-51 | The reason and position of a run's first refusal, and every variable as it stood then, are those the whole run ends with |
| Runs.OthersUntouched | read_stream.go:46-63 | A run changes no variable but those its steps read into, nested steps included |
| Runs.OnlyStepsBefore | read_stream.go:46-63 | A run refused at a single-value field changes only the variables of the steps before it; the refused field's own variable stays as it was |
| Runs.CheckOnceAtTheEnd | read_stream.go:46-63 | Checking the error once at the end gives the same stream and the same variables as stopping at the first refused field |
| Runs.NestingIsTransparent | read_stream.go:534-545 | A nested object its caller does not refuse reads exactly as its steps do in place |
| Runs.VerdictIsRefusal | read_stream.go:534-561 | A nested object whose caller refuses, and whatever follows it, runs as its steps in place followed by the caller's own Fail |
| Runs.Run | read_stream.go:406-561 | The stream and an array of typed variables, several fields reading into one allowed, run every program of schema operations, ends and refusals as its step semantics says |
| Runs.RunObject | read_stream.go:534-545 | The same for a nested object with its caller's verdict |
| Programs.ProgramCanonical | STANDARD.md:21-24 | For every value-dependent message, what a reader accepts is the encoding of the legal values it returned |
| Programs.ProgramRoundTrip | STANDARD.md:21-24 | Legal values of such a message, encoded anywhere, are read back and end exactly behind their bits |
| Programs.ProgramExact | STANDARD.md:21-24 | A reader accepts a packet with given values if and only if they are legal and it is their packet, though which fields it has depends on the values |
| Programs.ProgramCut | read_stream.go:54-63 | Such a message, read from its stream cut short anywhere, is unchanged or past the end |
| Programs.ProgramPrefixRefused | read_stream.go:54-63 | Every strict byte prefix of its packet is refused as past_end |
| Programs.ProgramExtensionRefused | read_stream.go:513-525 | Every extension of its packet is refused as trailing_data |
| Programs.ProgramMeasureBounds | measure_stream.go:196-228 | Its measure covers its write from every position, by at most 7 bits more for each align it pays |
| Programs.DriveTerminal | read_stream.go:46-63 | After a refusal, whatever branches stale values lead a caller down, the stream does not move or change its reason |
| Programs.DriveEnds | read_stream.go:46-63 | A caller that checks no error before the end leaves the stream as one that stops at the first refusal |
| Programs.WriteProgram | write_stream.go:510-512 | The write stream appends exactly the message's encoding, or traps with a first part of it, exactly by room |
| Programs.ReadProgram | read_stream.go:534-561 | The read stream takes such a message as the format says, the caller's own refusals included |
| Programs.RunUnchecked | read_stream.go:534-561 | The same stream results when every read is made whatever the error |
| Programs.SendAndReceiveProgram | read_stream.go:513-545 | Such a message through both streams arrives as sent and ends where its packet ends |
| Programs.SequenceIsSchema | read_stream.go:534-545 | A fixed list of fields is the program that asks for them in order |
| Programs.GuardedCarries | README.md:126-137 | A flag and the fields it guards carry exactly a legal flag, followed by legal values of those fields when it has the guarding value and by nothing otherwise |
| Programs.ChainCarriesRising | write_stream.go:514-544 | A chain of relative values carries exactly the strictly rising lists of its length |
| Lists.Continue | stream.go:231-236 | One bit is read into the flag and decides the loop; on a refusal the flag is as it was, the stream stands still and the loop ends |
| Lists.Until | stream.go:257-262 | The same with the opposite polarity |
| Lists.ReadList | stream.go:225-262 | A loop over Continue or Until ends on every input, after at most as many rounds as there are bits left, with exactly the elements the wire holds or at its first refusal, and at once on a stream that had already refused |
| Lists.ListRoundTrip | stream.go:225-262 | The bits of a list, standing anywhere, read back element for element and end on the last flag |
| Lists.ListCanonical | stream.go:225-262 | A list a loop accepted stands in the stream as the encoding of the elements read |
| Lists.WriteList | stream.go:225-262 | The writer's loop appends exactly the list's encoding, or traps with a first part of it, exactly when there is no room for it all |
| Lists.SendAndReceiveList | stream.go:225-262 | A list written, flushed and read back is the list sent, ending at its last bit |
| Runs.MeasureThenWrite | measure_stream.go:196-258 | With the measured bits left in the buffer, from any position, the write never traps |
| Runs.SendAndReceive | read_stream.go:513-545 | A legal message through both streams, with any slack behind the packet and any variables to read into, arrives as sent, the stream standing at the packet's last bit with no refusal |
| Runs.ReceiveAndSend | STANDARD.md:21-24 | Whatever bytes the read stream accepts, the write stream gives those bytes again |
| MeasureStreams.MeasureStream.SerializeInt | measure_stream.go:71-79 | Counts the exact width of the range |
| MeasureStreams.MeasureStream.SerializeInt64 | measure_stream.go:83-91 | Counts the exact width of the range |
| MeasureStreams.MeasureStream.SerializeInt128 | measure_stream.go:95-103 | Counts the exact width of the range |
| MeasureStreams.MeasureStream.SerializeFixed64 | measure_stream.go:110-117 | Counts the exact width of the scaled range |
| MeasureStreams.MeasureStream.SerializeFixed128 | measure_stream.go:121-128 | Counts the exact width of the scaled range |
| MeasureStreams.MeasureStream.SerializeBytes | measure_stream.go:196-198 | Counts the payload and the worst align |
| MeasureStreams.MeasureStream.SerializeString | measure_stream.go:203-212 | Counts the length field, the worst align and the payload |
| MeasureStreams.MeasureStream.SerializeIntRelative | measure_stream.go:234-258 | The loop over the buckets counts exactly the bits the ladder writes |
| MeasureStreams.MeasureStream.MeasureObject | measure_stream.go:226-228 | An object counts the sum of its fields |
| Int128s.AddVal | int128.go:87-91 | Carrying across lanes is addition modulo 2^128 |
| Int128s.SubVal | int128.go:94-98 | Borrowing across lanes is subtraction modulo 2^128 |
| Int128s.CmpVal | int128.go:70-84 | Lane comparison is the order of the numbers, and equal numbers have equal lanes |
| Int128s.LenVal | int128.go:61-66 | The length is the least width of the number |
| Int128s.MulVal | int128.go:101-107 | One full and two wrapping products are multiplication modulo 2^128 |
| Int128s.LshVal | int128.go:179-191 | For every count, a left shift is multiplication by a power of two modulo 2^128 |
| Int128s.RshVal | int128.go:195-205 | For every count, a right shift is division by a power of two |
| Int128s.OrVal | int128.go:167-169 | Or of lanes is or of numbers |
| Int128s.DivMod | int128.go:114-137 | On all three paths, for every nonzero divisor, x = q*y + r with r < y |
| Int128s.BitShiftedIn | int128.go:126-129 | Shifting the next dividend bit into the remainder never loses a bit, divisors above 2^127 included |
| Int128s.SignedDivMod | int128.go:288-306 | Truncation toward zero with the remainder's sign following the dividend, wrapping only for the least value over -1 |
| Int128s.TruncationIsUnique | int128.go:280-287 | Truncating division has one answer: the magnitudes' quotient and remainder with the signs so given |
| Int128s.SignedCmpVal | int128.go:249-263 | Lane comparison is the signed order |
| Int128s.SignedRshVal | int128.go:356-368 | For every count, the arithmetic shift is floor division by a power of two |
| Int128s.From64Val | int128.go:223-229 | Sign extension keeps the value |
| Int128s.Reinterpreted | int128.go:238-240 | Reinterpreting as unsigned is reduction modulo 2^128 and loses nothing |
| Params.Ranged32 | serialize.go:295-300 | The unsigned arithmetic of a 32-bit range is exact: width, span, offset and the value rebuilt |
| Params.Ranged64 | serialize.go:304-310 | The same at 64 bits |
| Params.Ranged128 | serialize.go:317-322 | The same at 128 bits, ranges wider than 2^127 included |
| Params.Rebuilt128 | read_stream.go:168-171 | An accepted 128-bit offset added to the lower bound is the value it stands for |
| Params.CapacityExact | stream.go:424-439 | A whole-unit bound passes the capacity check if and only if the Q format holds it |
| Params.ScaledBoundsFit | stream.go:469-482 | Scaled bounds stay inside one window of the storage, so their difference does not wrap |
| Params.Params64Exact | stream.go:469-482 | Width, range and raw lower bound are those of the declared field, and a width is negative if and only if the declaration is bad |
| Params.Params128Exact | stream.go:493-510 | The same for wide formats |
| Params.ScaledWidth | stream.go:493-510 | The unit range's width plus the fraction bits is the bit length of the raw range, and zero when the bounds are equal |
| Params.FixedTest64 | write_stream.go:265-275 | The wrapped-offset test accepts exactly the raw values within the scaled bounds |
| Params.FixedTest128 | write_stream.go:281-292 | The same for wide formats |
| Params.FixedRebuilt64 | read_stream.go:209-211 | Wrapping addition of an accepted offset gives the pattern of its raw value |
| Params.FixedRebuilt128 | read_stream.go:233-235 | The same for wide formats |
| Params.FiniteMask32 | stream.go:298-300 | The mask test is true exactly of the patterns whose exponent field is not all ones |
| Params.FiniteMask64 | stream.go:303-305 | The same at 64 bits |
| Widths.WidenedInt | stream.go:57-62 | A field widened from 64 to 128 bits over the same bounds keeps its wire: same width, same offset, all in the low lane |
| Widths.FixedIsRanged | write_stream.go:264-275 | A 64-bit fixed-point field accepts the same values and writes the same bits as the ranged field over its raw bounds; those bounds are a ranged declaration if and only if they do not straddle 2^63 |
| Widths.StraddlingBounds | write_stream.go:264-275 | A legal unsigned format whose raw bounds are no ranged declaration |
| Roundings.Binary32IsRounding | STANDARD.md:442-457 | Binary32 rounding to nearest is monotone, idempotent, exact on the values the laws name, and never loses a difference |
| Roundings.Binary32Near | STANDARD.md:442-457 | From the least normal value up binary32 moves a number by at most 2^-24 of itself |
| Roundings.OverflowThreshold | stream.go:298-300 | A number rounds to a finite value if and only if it is below 2^128 - 2^103 |
| Roundings.LargestValues | stream.go:365-369 | No binary32 value lies between 4294967040 and 2^32, nor a spacing above the largest finite value |
| Quantizations.CountIsLeast | stream.go:360-371 | The largest code is the least number of resolution steps that cover the range, where the ratio is exact |
| Quantizations.CountEnds | stream.go:360-371 | A range of at most one step has one code above 0, and a ratio past the clamp or a width that is not finite has 4294967040 |
| Quantizations.CountOfRatio | stream.go:360-376 | Between the clamps the count is the rounded ratio's ceiling, and its width is the least that holds it |
| Quantizations.ConstantsChecked | stream.go:395-398 | Precomputed constants are accepted if and only if the count is in its range, the width is the least that holds it and delta is positive and finite |
| Quantizations.DerivedAreBinary32 | stream.go:360-376 | The count and the width derived in binary32 are binary32 values |
| Quantizations.WrittenCodesAreBinary32 | write_stream.go:395-415 | Every code a writer emits in binary32 is a binary32 value or the largest code |
| Accuracy.NearestCode | write_stream.go:395-415 | A code is nearest to its value's place among the codes, ties up, within the part rounding may add: exactly nearest where every step is exact |
| Accuracy.EndCodes | write_stream.go:395-415 | A value at the lower bound or below gets 0, and one at the far end or above the largest code |
| Accuracy.DecodeIsPlace | read_stream.go:385-397 | A decode is the lower bound plus the code's share of the range, within the part rounding may add: exactly where every step is exact |
| Accuracy.NearestQuantum | STANDARD.md:476-477 | A round trip returns a value within half a quantum of the original, and the part rounding may add |
| Accuracy.CodesAreStable | STANDARD.md:476-477 | A decode is quantized to the code it came from, whenever the steps are wide beside what rounding can move, so always where every step is exact |
| SinglePrecision.Binary32Code | write_stream.go:395-415 | In binary32 every value's code is within half a step and 7 parts in 2^24 of the codes of its exact place, with no condition on the steps |
| SinglePrecision.Binary32Decode | read_stream.go:385-397 | In binary32 every decode is within 7 parts in 2^24 of the range and its lower bound of its exact place |
| SinglePrecision.Binary32Quantum | STANDARD.md:476-477 | In binary32 a round trip of any value in a range from 2^-90 up is within half a quantum, and 28 parts in 2^24 of the codes of range and lower bound |
| SinglePrecision.Binary32Stable | STANDARD.md:476-477 | In binary32 every code of a range with few enough codes for its distance from zero is read and written again as itself |
| SinglePrecision.DocumentedCodesStable | STANDARD.md:442-457 | Over [0, 10] and over [-100, 100] at 0.01, every one of the codes is read and written again as itself |
| SinglePrecision.TwoRoundings | STANDARD.md:442-452 | 0.005 over [0, 10] at 0.01 is written as 1, and fused arithmetic would write 0 |
| SinglePrecision.EveryWriteRounding | write_stream.go:392-404 | A value whose code each of the five roundings of a write decides |
| SinglePrecision.TwoDecodeRoundings | STANDARD.md:454-457 | Code 384 over [-100, 100] at 0.01 decodes to -96.160004, and fused arithmetic would not give it |
| SinglePrecision.EveryDecodeRounding | read_stream.go:385-397 | A code whose decode each of the five roundings of a read decides |
| SinglePrecision.DocumentedConstants | stream.go:360-376 | The constants of 0.01 over [0, 10] and over [-100, 100]: 1000 codes in 10 bits and 20000 in 15 |
| Quantizations.CodeFits | write_stream.go:395-415 | Every code is within [0, maxIntegerValue] and fits its width, and its integer conversion is in range before the clamp |
| Quantizations.QuantizeMonotone | write_stream.go:395-415 | A larger value never gets a smaller code |
| Quantizations.DecodeMonotone | read_stream.go:377-402 | A larger code never decodes to a smaller value |
| Quantizations.DecodeEnds | read_stream.go:377-402 | The least code decodes to the lower bound and the greatest to lower bound plus width, rounded |
| Quantizations.AcceptedDecodeBounded | read_stream.go:377-402 | Every accepted decode lies between those ends |
| Quantizations.FiniteTopSuffices | write_stream.go:382-394 | No code in range is refused as non-finite if and only if the top decode is finite |
| Quantizations.QuantizeGives | write_stream.go:395-415 | Every code a writer emits is the largest one or the floor of a value that rounding leaves alone |
| Quantizations.TwinCodes | read_stream.go:381-402 | Two codes that round to one float are accepted, refused and decoded alike |
| Quantizations.UnwrittenCodeAccepted | STANDARD.md:21-24 | Under a rounding with gaps above 2^24, a reader accepts a code that no value makes a writer emit |
| Quantizations.WrittenCodesAreAccepted | write_stream.go:382-416 | A code a writer emits is one every reader accepts |
| CompressedFloats.WriteCompressed | write_stream.go:382-416 | Writes the ranged field of the value's code whole, or traps with nothing written |
| CompressedFloats.ReadCode | read_stream.go:377-402 | The stream moves as the code's ranged read says, a decode that is not finite is refused, and the destination is written only with a finite decode |
| CompressedFloats.CompressedRead | read_stream.go:377-402 | Any bits are past the end, a code past the largest, a decode that is not finite, or the code |
| CompressedFloats.ReadPrecomputed | read_stream.go:361-366 | Constants that fail the check are refused before anything is read; others read as their code does |
| CompressedFloats.ReadDeclared | read_stream.go:342-352 | A bad declaration is refused before anything is read; a width that is not finite consumes the code and is refused as non-finite |
| CompressedFloats.WriteDeclared | write_stream.go:351-359 | A declaration with finite width, ratio and top decode derives constants the precomputed check accepts, and writes the code's field whole or nothing |
| CompressedFloats.MeasureCompressed | measure_stream.go:184-193 | Counts the measure of the code's field |
| CompressedFloats.WrittenIsDecoded | write_stream.go:382-416 | A written code, standing anywhere, is read back and accepted |
| CompressedFloats.CompressedIsProgram | read_stream.go:377-402 | Reading a compressed float is reading the program of its code and the refusal of its decode |
| Quantizations.FiniteWidthIsValid | stream.go:349-376 | Over representable bounds, derived constants fail the precomputed check exactly when the width overflows |
| CopyStrings.CopyString | serialize.go:277-292 | The longest prefix before the first NUL that is short enough and does not end inside a character |
| CopyStrings.CopyWellFormed | serialize.go:277-292 | On well-formed text, the longest prefix a write stream with that buffer size accepts |
| CopyStrings.PrefixWellFormed | serialize.go:285-291 | Cutting well-formed text where no continuation byte begins leaves well-formed text |
| CopyStrings.WellFormedEnds | serialize.go:285-291 | A well-formed prefix of well-formed text ends at such a place |

## Left out

- Destination pointers: a single read takes its variable's value and returns its new one, and a run keeps its variables in an array, so two fields may share a variable but an object's own fields may not, and no variable is a field of the stream.
- A read stream's backing array is not written by anyone else between two reads.
- Panics other than those for room: a value outside its declaration, a bad declaration on the write side and a buffer whose length is not a multiple of 8 are preconditions.
- Go `int64` bit counts are natural numbers here: buffers are assumed short enough that eight times their length fits `int64`.
- `int` parameters of a Q format are bounded so that their sum does not wrap.
- User `Serialize` methods are schema trees, and programs that choose each next field from the values before it, under any bound on the number of fields; a nested object stands in a program as a schema tree or as its fields in place.
- A compressed float has no operation of its own in a schema: it stands there as the ranged field of its code, or as the program of its code and its decode's refusal, and the theorems about messages are about its code.
- Floats are bit patterns with an exponent-field test. Compressed floats are reals under a rounding: negative zero is zero, an infinity is any number too large to be finite, declared bounds are finite values, and no operand is a NaN.
- SinglePrecision.Binary32Stable: says nothing for ranges with more codes, scaled by how far they stand from zero, than 2^24 / 28, where a code need not survive a round trip, nor for ranges narrower than 2^-90.
- The wrapped cause of a rejection, `RefusalName`, `Context`, error interfaces, allocation and inlining.
- `utf8.Valid` is specified as a predicate, and `math/bits` operations by their documented values; their own code is not part of this model.
- Int128s.DivMod: says nothing for a zero divisor, whose results the source documents as no contract.
- Zig-zag helpers, bitwise lane operations other than or, and getters.
- The conformance corpus, the compatibility programs and the C++ twin.
