/**
 The state both writers keep: whole words already in the buffer, the pending bits in a scratch word, and
 everything past the last stored word still as it was when the writer was pointed at the buffer.
 */
module Packing {
  import opened Bits
  import opened Words

  /** buffer and scratch hold a record of w whole words and less than one word pending, over what buffer held first. */
  ghost predicate ImageAt(buffer: seq<byte>, origin: seq<byte>, written: seq<bool>, scratch: nat, w: nat) {
    && 64 * w <= |written| < 64 * w + 64
    && 8 * w <= |buffer| == |origin|
    && Unpack(buffer[..8 * w]) == written[..64 * w]
    && buffer[8 * w..] == origin[8 * w..]
    && scratch == FromBits(written[64 * w..])
  }

  /** buffer and scratch hold exactly the bits written, all whole words of them in the buffer. */
  ghost predicate Image(buffer: seq<byte>, origin: seq<byte>, written: seq<bool>, scratch: nat) {
    && |buffer| == |origin| && |buffer| % 8 == 0
    && |written| <= 8 * |buffer|
    && ImageAt(buffer, origin, written, scratch, |written| / 64)
  }

  ghost predicate FlushedAt(buffer: seq<byte>, origin: seq<byte>, written: seq<bool>, w: nat) {
    && |written| <= 64 * w
    && 8 * w <= |buffer| == |origin|
    && Unpack(buffer[..8 * w]) == written + Zeros(64 * w - |written|)
    && buffer[8 * w..] == origin[8 * w..]
  }

  /** The buffer once the partial word is stored too: the bits, zeros to the end of the word, then the origin. */
  ghost predicate Flushed(buffer: seq<byte>, origin: seq<byte>, written: seq<bool>) {
    && |buffer| == |origin|
    && FlushedAt(buffer, origin, written, (|written| + 63) / 64)
  }

  /** The pending bits are masked: nothing above the pending count is set. */
  lemma ScratchIsMasked(buffer: seq<byte>, origin: seq<byte>, written: seq<bool>, scratch: nat)
    requires Image(buffer, origin, written, scratch)
    ensures scratch < Pow2(|written| % 64) < TWO64
  {
    FromBitsBound(written[64 * (|written| / 64)..]);
    Pow2Monotone(|written| % 64 + 1, 64);
    Pow2Widths();
  }

  lemma Rejoin<T>(a: seq<T>, b: seq<T>, n: nat)
    requires n <= |a| && n <= |b|
    requires a[..n] == b[..n] && a[n..] == b[n..]
    ensures a == b
  {
  }

  /** What the two writers may differ in is nothing: the bits written fix buffer and scratch. */
  lemma ImageIsDetermined(buffer: seq<byte>, buffer': seq<byte>, origin: seq<byte>, written: seq<bool>,
                          scratch: nat, scratch': nat)
    requires Image(buffer, origin, written, scratch)
    requires Image(buffer', origin, written, scratch')
    ensures buffer == buffer' && scratch == scratch'
  {
    var n := 8 * (|written| / 64);
    UnpackInjective(buffer[..n], buffer'[..n]);
    Rejoin(buffer, buffer', n);
  }

  lemma FlushedIsDetermined(buffer: seq<byte>, buffer': seq<byte>, origin: seq<byte>, written: seq<bool>)
    requires Flushed(buffer, origin, written)
    requires Flushed(buffer', origin, written)
    ensures buffer == buffer'
  {
    var n := 8 * ((|written| + 63) / 64);
    UnpackInjective(buffer[..n], buffer'[..n]);
    Rejoin(buffer, buffer', n);
  }

  lemma PaddedCount(count: nat, n: nat)
    requires count <= 8 * n < count + 8
    ensures 8 * n == count + AlignPad(count)
  {
  }

  /** A count of bits, in whole words and in whole bytes. */
  lemma WordsAndBytes(count: nat)
    ensures var w, n := (count + 63) / 64, (count + 7) / 8;
            8 * n == count + AlignPad(count) <= 64 * w
  {
    var a, r := count / 64, count % 64;
    var b, c := r / 8, r % 8;
    var w := if r == 0 then a else a + 1;
    var n := 8 * a + b + (if c == 0 then 0 else 1);
    DivModUnique(count + 63, 64, w, count + 63 - 64 * w);
    DivModUnique(count + 7, 8, n, count + 7 - 8 * n);
    PaddedCount(count, n);
  }

  lemma ZerosCut(s: seq<bool>, zeros: nat, k: nat)
    requires |s| <= k <= |s| + zeros
    ensures (s + Zeros(zeros))[0..k] == s + Zeros(k - |s|)
  {
  }

  lemma FlushedBytes(buffer: seq<byte>, written: seq<bool>, w: nat, n: nat)
    requires 8 * w <= |buffer| && |written| <= 8 * n <= 64 * w
    requires Unpack(buffer[..8 * w]) == written + Zeros(64 * w - |written|)
    ensures n <= |buffer| && Unpack(buffer[..n]) == written + Zeros(8 * n - |written|)
  {
    hide Unpack;
    var all := buffer[..8 * w];
    assert all[0..n] == buffer[..n];
    UnpackSlice(all, 0, n);
    ZerosCut(written, 64 * w - |written|, 8 * n);
  }

  /** The packet a flushed buffer hands on: the bits, zero padded to a whole byte. */
  lemma FlushedPrefix(buffer: seq<byte>, origin: seq<byte>, written: seq<bool>)
    requires Flushed(buffer, origin, written)
    ensures (|written| + 7) / 8 <= |buffer|
    ensures Unpack(buffer[..(|written| + 7) / 8]) == written + Zeros(AlignPad(|written|))
  {
    hide Unpack, AlignPad;
    WordsAndBytes(|written|);
    FlushedBytes(buffer, written, (|written| + 63) / 64, (|written| + 7) / 8);
  }

  lemma ShiftedPart(value: uint64, s: nat) returns (low: nat)
    requires s < 64
    ensures Shl64(value, s) == low * Pow2(s) == Pow2(s) * value % TWO64
    ensures Shl64(value, s) + Pow2(s) <= TWO64
  {
    ShlKeepsLow(value, s);
    low := value % Pow2(64 - s);
  }

  lemma MergedWord(x: nat, scaled: nat)
    requires x + scaled % TWO64 < TWO64
    ensures (x + scaled) % TWO64 == x + scaled % TWO64
  {
  }

  lemma MergeArithmetic(x: nat, value: uint64, s: nat)
    requires s < 64 && x < Pow2(s)
    ensures BitOr(x, Shl64(value, s)) == (x + Pow2(s) * value) % TWO64
  {
    hide BitOr, Shl64, Pow2;
    var low := ShiftedPart(value, s);
    OrIsSum(x, low, s);
    MergedWord(x, Pow2(s) * value);
  }

  /** The scratch after value is merged at the pending count: the pending bits and the field, modulo 2^64. */
  lemma MergeIsModular(pending: seq<bool>, value: nat, n: nat)
    requires |pending| < 64 && n <= 64 && value < Pow2(n)
    ensures value < TWO64
    ensures BitOr(FromBits(pending), Shl64(value, |pending|)) == FromBits(pending + ToBits(value, n)) % TWO64
  {
    hide FromBits, BitOr, Pow2;
    assert value < TWO64 by {
      Pow2Widths();
      Pow2Monotone(n, 64);
    }
    FromBitsBound(pending);
    MergeArithmetic(FromBits(pending), value, |pending|);
    FromBitsConcat(pending, ToBits(value, n));
    FromBitsOfToBits(value, n);
  }

  /** Writing a field that leaves the word open. */
  lemma MergeWithoutSpill(pending: seq<bool>, value: nat, n: nat)
    requires |pending| < 64 && n <= 64 && value < Pow2(n) && |pending| + n < 64
    ensures value < TWO64
    ensures BitOr(FromBits(pending), Shl64(value, |pending|)) == FromBits(pending + ToBits(value, n))
  {
    MergeIsModular(pending, value, n);
    var all := pending + ToBits(value, n);
    FromBitsBound(all);
    Pow2Monotone(|all|, 64);
    Pow2Widths();
    DivModUnique(FromBits(all), TWO64, 0, FromBits(all));
  }

  /** What a completed word leaves over is the field without the bits the word took. */
  lemma CarryIsShifted(pending: seq<bool>, value: nat, n: nat)
    requires |pending| < 64 && value < Pow2(n) && |pending| + n >= 64
    ensures Shr(value, 64 - |pending|) == FromBits((pending + ToBits(value, n))[64..])
  {
    hide FromBits, ToBits, Shr, Pow2;
    var field, k := ToBits(value, n), 64 - |pending|;
    assert (pending + field)[64..] == field[k..];
    FromBitsSlices(field, k);
    FromBitsOfToBits(value, n);
    ShrIsDiv(value, k);
  }

  /** Writing a field that completes the word: the word stored, and the carry, zero when the field ends the word. */
  lemma MergeWithSpill(pending: seq<bool>, value: nat, n: nat)
    requires |pending| < 64 && n <= 64 && value < Pow2(n) && |pending| + n >= 64
    ensures value < TWO64
    ensures var all := pending + ToBits(value, n);
            && BitOr(FromBits(pending), Shl64(value, |pending|)) == FromBits(all[..64]) < TWO64
            && Shr(value, 64 - |pending|) == FromBits(all[64..])
  {
    assert Pow2(64) == TWO64 by { Pow2Widths(); }
    hide FromBits, ToBits, BitOr, Shl64, Shr, Pow2;
    MergeIsModular(pending, value, n);
    var field := ToBits(value, n);
    var all := pending + field;
    FromBitsSlices(all, 64);
    FromBitsBound(all[..64]);
    CarryIsShifted(pending, value, n);
  }

  lemma AppendSlices<T>(a: seq<T>, b: seq<T>, i: nat)
    requires i <= |a|
    ensures (a + b)[..i] == a[..i]
    ensures (a + b)[i..] == a[i..] + b
  {
  }

  /** Appending bits that leave the word open keeps the stored words. */
  lemma ImageExtends(buffer: seq<byte>, origin: seq<byte>, written: seq<bool>, scratch: nat,
                     more: seq<bool>, scratch': nat, w: nat)
    requires Image(buffer, origin, written, scratch) && w == |written| / 64
    requires |written| + |more| <= 8 * |buffer|
    requires |written| + |more| < 64 * w + 64
    requires scratch' == FromBits(written[64 * w..] + more)
    ensures Image(buffer, origin, written + more, scratch')
  {
    AppendSlices(written, more, 64 * w);
    var all := written + more;
    assert ImageAt(buffer, origin, all, scratch', w);
    assert |all| / 64 == w;
  }

  lemma PrefixTakes<T>(a: seq<T>, b: seq<T>, i: nat)
    requires a <= b && i <= |a|
    ensures a[..i] == b[..i]
  {
  }

  lemma SplitAt<T>(s: seq<T>, i: nat, j: nat)
    requires i <= j <= |s|
    ensures s[..i] + s[i..j] == s[..j]
  {
  }

  lemma StoredBits(before: seq<byte>, stored: seq<byte>, written: seq<bool>, all: seq<bool>, i: nat, j: nat)
    requires i <= |written| && i <= j <= |all| && written <= all
    requires Unpack(before) == written[..i] && Unpack(stored) == all[i..j]
    ensures Unpack(before + stored) == all[..j]
  {
    hide Unpack;
    UnpackConcat(before, stored);
    PrefixTakes(written, all, i);
    SplitAt(all, i, j);
  }

  lemma SpliceSlices<T>(a: seq<T>, mid: seq<T>, b: seq<T>, i: nat, j: nat)
    requires i <= j <= |a| && |mid| == j - i && b == a[..i] + mid + a[j..]
    ensures |b| == |a| && b[..j] == a[..i] + mid && b[j..] == a[j..]
  {
  }

  lemma DropFurther<T>(a: seq<T>, b: seq<T>, i: nat, j: nat)
    requires |a| == |b| && i <= j <= |a| && a[i..] == b[i..]
    ensures a[j..] == b[j..]
  {
  }

  lemma WordsStored(buffer: seq<byte>, origin: seq<byte>, written: seq<bool>, scratch: nat,
                    all: seq<bool>, stored: seq<byte>, buffer': seq<byte>, scratch': nat, w: nat, m: nat)
    requires ImageAt(buffer, origin, written, scratch, w) && written <= all
    requires |stored| == 8 * m && 64 * (w + m) <= |all| < 64 * (w + m) + 64
    requires 8 * (w + m) <= |buffer|
    requires buffer' == buffer[..8 * w] + stored + buffer[8 * w + 8 * m..]
    requires Unpack(stored) == all[64 * w..64 * (w + m)]
    requires scratch' == FromBits(all[64 * (w + m)..])
    ensures |buffer'| == |buffer| && ImageAt(buffer', origin, all, scratch', w + m)
  {
    hide Unpack, FromBits;
    SpliceSlices(buffer, stored, buffer', 8 * w, 8 * (w + m));
    assert buffer'[8 * (w + m)..] == origin[8 * (w + m)..] by {
      DropFurther(buffer, origin, 8 * w, 8 * (w + m));
    }
    StoredBits(buffer[..8 * w], stored, written, all, 64 * w, 64 * (w + m));
  }

  /** Storing m words of the record after the w already stored keeps the image. */
  lemma ImageSpills(buffer: seq<byte>, origin: seq<byte>, written: seq<bool>, scratch: nat,
                    all: seq<bool>, stored: seq<byte>, buffer': seq<byte>, scratch': nat, w: nat, m: nat)
    requires Image(buffer, origin, written, scratch) && w == |written| / 64
    requires written <= all && |all| <= 8 * |buffer|
    requires |stored| == 8 * m && 64 * (w + m) <= |all| < 64 * (w + m) + 64
    requires 8 * (w + m) <= |buffer|
    requires buffer' == buffer[..8 * w] + stored + buffer[8 * w + 8 * m..]
    requires Unpack(stored) == all[64 * w..64 * (w + m)]
    requires scratch' == FromBits(all[64 * (w + m)..])
    ensures Image(buffer', origin, all, scratch')
  {
    hide Unpack, FromBits, ImageAt;
    assert |all| / 64 == w + m;
    WordsStored(buffer, origin, written, scratch, all, stored, buffer', scratch', w, m);
  }

  lemma NoPartialWord(buffer: seq<byte>, origin: seq<byte>, written: seq<bool>, scratch: nat, w: nat)
    requires ImageAt(buffer, origin, written, scratch, w) && |written| == 64 * w
    ensures FlushedAt(buffer, origin, written, w)
  {
  }

  lemma PadJoins<T>(s: seq<T>, i: nat, z: seq<T>)
    requires i <= |s|
    ensures s[..i] + (s[i..] + z) == s + z
  {
  }

  /** A number written wider than its bits is padded with zeros. */
  lemma {:induction false} ToBitsPads(s: seq<bool>, n: nat)
    requires |s| <= n
    ensures ToBits(FromBits(s), n) == s + Zeros(n - |s|)
  {
    var padded := s + Zeros(n - |s|);
    FromBitsConcat(s, Zeros(n - |s|));
    FromBitsZero(Zeros(n - |s|));
    assert FromBits(padded) == FromBits(s);
    ToBitsOfFromBits(padded);
  }

  lemma PartialWordStored(buffer: seq<byte>, origin: seq<byte>, written: seq<bool>, scratch: nat,
                          buffer': seq<byte>, w: nat)
    requires ImageAt(buffer, origin, written, scratch, w)
    requires 8 * w + 8 <= |buffer| && buffer' == buffer[..8 * w] + LeBytes(scratch, 8) + buffer[8 * w + 8..]
    ensures FlushedAt(buffer', origin, written, w + 1)
  {
    hide Unpack, FromBits, ToBits, LeBytes;
    var pending, stored := written[64 * w..], LeBytes(scratch, 8);
    var zeros := Zeros(64 - |pending|);
    SpliceSlices(buffer, stored, buffer', 8 * w, 8 * w + 8);
    assert Unpack(buffer'[..8 * w + 8]) == written[..64 * w] + (pending + zeros) by {
      UnpackConcat(buffer[..8 * w], stored);
      UnpackLe(scratch, 8);
      ToBitsPads(pending, 64);
    }
    PadJoins(written, 64 * w, zeros);
    DropFurther(buffer, origin, 8 * w, 8 * w + 8);
  }

  /** Storing the partial word ends the record. */
  lemma ImageFlushes(buffer: seq<byte>, origin: seq<byte>, written: seq<bool>, scratch: nat, buffer': seq<byte>, w: nat)
    requires Image(buffer, origin, written, scratch) && w == |written| / 64
    requires if |written| % 64 == 0 then buffer' == buffer
             else 8 * w + 8 <= |buffer| && buffer' == buffer[..8 * w] + LeBytes(scratch, 8) + buffer[8 * w + 8..]
    ensures Flushed(buffer', origin, written)
  {
    if |written| % 64 == 0 {
      assert (|written| + 63) / 64 == w;
      NoPartialWord(buffer, origin, written, scratch, w);
    } else {
      assert (|written| + 63) / 64 == w + 1;
      PartialWordStored(buffer, origin, written, scratch, buffer', w);
    }
  }

  /** The scratch once a field is merged above its pending bits. */
  function Merged(scratch: uint64, value: uint64, pending: nat): uint64 {
    Or64(scratch, Shl64(value, pending))
  }

  /** The byte offset of the word the bit count stands in. */
  lemma WordOffset(bitsWritten: nat)
    ensures BitClear(Shr(bitsWritten, 3), 7) == 8 * (bitsWritten / 64)
  {
    hide BitClear, Shr;
    ShrIsDiv(bitsWritten, 3);
    assert Pow2(3) == 8;
    ClearLow3(bitsWritten / 8);
  }

  lemma WordCompleted(buffer: seq<byte>, origin: seq<byte>, written: seq<bool>, scratch: uint64,
                      field: seq<bool>, word: uint64, carry: uint64, w: nat)
    requires Image(buffer, origin, written, scratch) && w == |written| / 64
    requires |field| <= 64 && |written| + |field| <= 8 * |buffer| && |written| % 64 + |field| >= 64
    requires var all := written[64 * w..] + field;
             word == FromBits(all[..64]) && carry == FromBits(all[64..])
    ensures 8 * w + 8 <= |buffer|
    ensures Image(buffer[..8 * w] + LeBytes(word, 8) + buffer[8 * w + 8..], origin, written + field, carry)
  {
    hide ToBits, FromBits, Unpack, LeBytes;
    var stored, all := LeBytes(word, 8), written + field;
    AppendSlices(written, field, 64 * w);
    assert all[64 * w..][..64] == all[64 * w..64 * (w + 1)];
    assert all[64 * w..][64..] == all[64 * (w + 1)..];
    UnpackLe(word, 8);
    ToBitsOfFromBits(all[64 * w..64 * (w + 1)]);
    ImageSpills(buffer, origin, written, scratch, all, stored,
                buffer[..8 * w] + stored + buffer[8 * w + 8..], carry, w, 1);
  }

  /** Merging a masked field, and storing the word it completes, keeps the image. */
  lemma FieldMerges(buffer: seq<byte>, origin: seq<byte>, written: seq<bool>, scratch: uint64, value: uint64, n: nat)
    requires Image(buffer, origin, written, scratch)
    requires n <= 64 && value < Pow2(n) && |written| + n <= 8 * |buffer|
    ensures var w, sb := |written| / 64, |written| % 64;
            var scratch' := Merged(scratch, value, sb);
            if sb + n < 64 then Image(buffer, origin, written + ToBits(value, n), scratch')
            else
              && 8 * w + 8 <= |buffer|
              && Image(buffer[..8 * w] + LeBytes(scratch', 8) + buffer[8 * w + 8..],
                       origin, written + ToBits(value, n), Shr64(value, 64 - sb))
  {
    hide ToBits, FromBits, BitOr, Shl64, Shr, Pow2, Unpack, LeBytes;
    var w := |written| / 64;
    var pending, field := written[64 * w..], ToBits(value, n);
    var scratch' := Merged(scratch, value, |pending|);
    if |pending| + n < 64 {
      MergeWithoutSpill(pending, value, n);
      ImageExtends(buffer, origin, written, scratch, field, scratch', w);
    } else {
      MergeWithSpill(pending, value, n);
      WordCompleted(buffer, origin, written, scratch, field, scratch', Shr64(value, 64 - |pending|), w);
    }
  }

  /** Copying m whole words of bytes at a word boundary keeps the image, with nothing pending. */
  lemma WordsCopied(buffer: seq<byte>, origin: seq<byte>, written: seq<bool>, scratch: uint64,
                    bytes: seq<byte>, w: nat, m: nat)
    requires Image(buffer, origin, written, scratch) && |written| == 64 * w
    requires |bytes| == 8 * m && 64 * (w + m) <= 8 * |buffer|
    ensures 8 * w + 8 * m <= |buffer| && scratch == 0
    ensures Image(buffer[..8 * w] + bytes + buffer[8 * w + 8 * m..], origin, written + Unpack(bytes), scratch)
  {
    hide Unpack;
    var all := written + Unpack(bytes);
    assert written[64 * w..] == [] && all[64 * (w + m)..] == [];
    assert all[64 * w..64 * (w + m)] == Unpack(bytes);
    ImageSpills(buffer, origin, written, scratch, all, bytes,
                buffer[..8 * w] + bytes + buffer[8 * w + 8 * m..], 0, w, m);
  }

  /** Go's copy into a buffer with enough room. */
  method CopyBytes(a: array<byte>, offset: nat, bytes: seq<byte>)
    requires offset + |bytes| <= a.Length
    modifies a
    ensures a[..] == old(a[..offset]) + bytes + old(a[offset + |bytes|..])
  {
    forall k | 0 <= k < |bytes| {
      a[offset + k] := bytes[k];
    }
  }

  lemma ImageHasRoom(buffer: seq<byte>, origin: seq<byte>, written: seq<bool>, scratch: nat)
    requires Image(buffer, origin, written, scratch)
    ensures |written| % 64 != 0 ==> 8 * (|written| / 64) + 8 <= |buffer|
  {
  }

  lemma NextBytes(written: seq<bool>, bytes: seq<byte>, i: nat, j: nat)
    requires i <= j <= |bytes|
    ensures written + Unpack(bytes[..i]) + Unpack(bytes[i..j]) == written + Unpack(bytes[..j])
  {
    hide Unpack;
    SplitAt(bytes, i, j);
    UnpackConcat(bytes[..i], bytes[i..j]);
    SeqAssoc(written, Unpack(bytes[..i]), Unpack(bytes[i..j]));
  }

  lemma NothingUnpacked(written: seq<bool>, bytes: seq<byte>)
    ensures written == written + Unpack(bytes[..0])
    ensures written == written + Unpack([])
  {
  }

  /** One more byte of a run is eight more bits. */
  lemma NextByte(written: seq<bool>, bytes: seq<byte>, i: nat)
    requires i < |bytes|
    ensures bytes[i] < Pow2(8)
    ensures written + Unpack(bytes[..i]) + ToBits(bytes[i], 8) == written + Unpack(bytes[..i + 1])
  {
    NextBytes(written, bytes, i, i + 1);
    assert bytes[i..i + 1] == [bytes[i]];
    Pow2Eight();
  }

  lemma HeadReachesBoundary(pos: nat)
    requires pos % 8 == 0
    ensures (pos + 8 * ((8 - pos % 64 / 8) % 8)) % 64 == 0
  {
    var w, k := pos / 64, pos % 64 / 8;
    assert pos == 64 * w + 8 * k;
    assert (8 - k) % 8 == if k == 0 then 0 else 8 - k;
  }

  lemma RunEnds(written: seq<bool>, bytes: seq<byte>, end: nat)
    requires end <= |bytes|
    ensures written + Unpack(bytes[..end]) + Unpack(bytes[end..]) == written + Unpack(bytes)
  {
    hide Unpack;
    assert bytes[..end] + bytes[end..] == bytes;
    UnpackConcat(bytes[..end], bytes[end..]);
    SeqAssoc(written, Unpack(bytes[..end]), Unpack(bytes[end..]));
  }

  /** A byte run is its head, its whole words and its tail. */
  lemma RunSplit(written: seq<bool>, bytes: seq<byte>, head: nat, end: nat)
    requires head <= end <= |bytes|
    ensures written + Unpack(bytes[..head]) + Unpack(bytes[head..end]) + Unpack(bytes[end..])
         == written + Unpack(bytes)
    ensures head == end ==>
              written + Unpack(bytes[..head]) + Unpack(bytes[end..]) == written + Unpack(bytes)
    ensures head == |bytes| ==> written + Unpack(bytes[..head]) == written + Unpack(bytes)
  {
    hide Unpack;
    NextBytes(written, bytes, head, end);
    RunEnds(written, bytes, end);
    if head == |bytes| {
      assert bytes[..head] == bytes;
    }
  }

  lemma StringAssembled(w: seq<bool>, length: seq<bool>, pad: seq<bool>, payload: seq<bool>)
    ensures w + length + pad + payload == w + (length + (pad + payload))
  {
  }

  lemma ByteOffset(pos: nat)
    ensures Shr(pos, 3) == pos / 8
  {
  }
}
