/** The bit reader: every read is one window load, from the buffer or from a zero-padded copy of its last bytes. */
module BitReaders {
  import opened Bits
  import opened Words
  import opened Packing

  /** Reach of a window load for fields of up to 32 bits, and for fields of up to 64. */
  const WINDOW_BYTES := 8
  const WINDOW64_BYTES := 12
  const TAIL_BYTES := WINDOW64_BYTES + WINDOW_BYTES + 4

  /** tail holds the data from base on, then zeros. */
  ghost predicate TailFilled(data: seq<byte>, tail: seq<byte>, base: nat) {
    && base == (if |data| < WINDOW64_BYTES then 0 else |data| - WINDOW64_BYTES)
    && |tail| == TAIL_BYTES
    && tail[..|data| - base] == data[base..]
    && forall k :: |data| - base <= k < TAIL_BYTES ==> tail[k] == 0
  }

  lemma TakeOfDrop<T>(s: seq<T>, k: nat, n: nat)
    requires k + n <= |s|
    ensures s[k..][..n] == s[k..k + n]
  {
  }

  lemma SliceOfTake<T>(s: seq<T>, k: nat, i: nat, j: nat)
    requires i <= j <= k <= |s|
    ensures s[..k][i..j] == s[i..j]
  {
  }

  lemma TakeOfTake<T>(s: seq<T>, k: nat, n: nat)
    requires n <= k <= |s|
    ensures s[..k][..n] == s[..n]
  {
  }

  lemma LeBound(s: seq<byte>)
    ensures |s| == 4 ==> FromLe(s) < TWO32
    ensures |s| == 8 ==> FromLe(s) < TWO64
    ensures FromLe(s) == FromBits(Unpack(s))
  {
    FromLeIsBits(s);
    FromBitsBound(Unpack(s));
    Pow2Widths();
  }

  function LoadLe64(s: seq<byte>): (w: uint64)
    requires |s| == 8
  {
    LeBound(s);
    FromLe(s)
  }

  function LoadLe32(s: seq<byte>): (w: uint32)
    requires |s| == 4
  {
    LeBound(s);
    FromLe(s)
  }

  /** The byte and the bit within it of a position. */
  lemma ByteOf(pos: nat)
    ensures Shr(pos, 3) == pos / 8 && BitAnd(pos, 7) == pos % 8
  {
    hide Shr, BitAnd;
    assert Pow2(3) == 8;
    ShrIsDiv(pos, 3);
    AndMask(pos, 3);
  }

  /** The low n bits of a bit string's number, by way of any word of at least n bits. */
  lemma MaskedLow(s: seq<bool>, word: nat, n: nat)
    requires n <= word <= |s|
    ensures BitAnd(FromBits(s) % Pow2(word), Pow2(n) - 1) == FromBits(s[..n]) < Pow2(word)
  {
    hide FromBits, BitAnd, Pow2;
    FromBitsSlices(s, word);
    FromBitsSlices(s[..word], n);
    TakeOfTake(s, word, n);
    AndMask(FromBits(s[..word]), n);
    FromBitsBound(s[..n]);
    Pow2Monotone(n, word);
  }

  /** Shifting a loaded word down and masking it is taking the field's bits. */
  lemma ShiftAndMask(win: seq<byte>, shift: nat, n: nat)
    requires |win| == 8 && shift < 8 && n <= 32
    ensures BitAnd(Wrap32(Shr64(LoadLe64(win), shift)), Pow2(n) - 1) == FromBits(Unpack(win)[shift..shift + n])
    ensures FromBits(Unpack(win)[shift..shift + n]) < TWO32
  {
    assert Pow2(32) == TWO32 by { Pow2Widths(); }
    hide Unpack, FromBits, FromLe, Shr, Pow2, BitAnd;
    LeBound(win);
    var s := Unpack(win)[shift..];
    ShrIsDiv(LoadLe64(win), shift);
    FromBitsSlices(Unpack(win), shift);
    MaskedLow(s, 32, n);
    TakeOfDrop(Unpack(win), shift, n);
  }

  /** A field of at most 32 bits out of an 8-byte window: shift, truncate, mask. */
  function Field(window: seq<byte>, shift: nat, bits: nat): (output: uint32)
    requires |window| == 8 && shift < 8 && bits <= 32
  {
    ShiftAndMask(window, shift, bits);
    BitAnd(Wrap32(Shr64(LoadLe64(window), shift)), Pow2(bits) - 1)
  }

  lemma WindowSplit(win: seq<byte>)
    requires |win| == 12
    ensures FromBits(Unpack(win)[..64]) == LoadLe64(win[..8]) < TWO64
    ensures FromBits(Unpack(win)[64..]) == LoadLe32(win[8..]) < TWO32
  {
    hide Unpack, FromBits, FromLe;
    var a, b := win[..8], win[8..];
    assert win == a + b;
    UnpackConcat(a, b);
    LeBound(a);
    LeBound(b);
  }

  /** A byte-aligned read shifts the dword out entirely. */
  lemma NoRemainder(low: uint64, high: uint64)
    ensures BitOr(Shr(low, 0), Shl64(high, 64)) == low
    ensures Shl64(high, 64) == 0
  {
    assert Pow2(64) == TWO64 by { Pow2Widths(); }
    DivModUnique(high * TWO64, TWO64, high, 0);
  }

  /** The shifted low word and the carried dword make the window from the bit remainder on, modulo 2^64. */
  lemma WindowJoined(a: seq<bool>, b: seq<bool>, shift: nat)
    requires |a| == 64 && |b| == 32 && shift < 8
    requires FromBits(a) < TWO64 && FromBits(b) < TWO32
    ensures Or64(Shr64(FromBits(a), shift), Shl64(FromBits(b), 64 - shift)) == FromBits((a + b)[shift..]) % Pow2(64)
  {
    hide FromBits, Shr, Pow2, Shl64, ToBits, BitOr;
    Pow2Widths();
    if shift == 0 {
      assert (a + b)[0..] == a + b;
      NoRemainder(FromBits(a), FromBits(b));
      ConcatDivides(a, b);
    } else {
      AppendSlices(a, b, shift);
      ShrIsDiv(FromBits(a), shift);
      FromBitsSlices(a, shift);
      ToBitsOfFromBits(b);
      MergeIsModular(a[shift..], FromBits(b), 32);
    }
  }

  /** A field of at most 64 bits out of a 12-byte window: the low word shifted down, the dword above it, the mask. */
  function WideField(window: seq<byte>, shift: nat, bits: nat): uint64
    requires |window| == 12 && shift < 8 && bits <= 64
  {
    var word := Or64(Shr64(LoadLe64(window[..8]), shift), Shl64(LoadLe32(window[8..]), 64 - shift));
    And64(word, Ones64(bits))
  }

  lemma WideShiftAndMask(win: seq<byte>, shift: nat, n: nat)
    requires |win| == 12 && shift < 8 && n <= 64
    ensures var window := Or64(Shr64(LoadLe64(win[..8]), shift), Shl64(LoadLe32(win[8..]), 64 - shift));
            And64(window, Ones64(n)) == FromBits(Unpack(win)[shift..shift + n])
    ensures WideField(win, shift, n) == FromBits(Unpack(win)[shift..shift + n])
  {
    hide Unpack, FromBits, FromLe, Shr, Pow2, BitAnd, BitOr, Shl64, ToBits;
    var bits := Unpack(win);
    WindowSplit(win);
    WindowJoined(bits[..64], bits[64..], shift);
    assert bits == bits[..64] + bits[64..];
    MaskedLow(bits[shift..], 64, n);
    TakeOfDrop(bits, shift, n);
  }

  /** src holds the data from base on. */
  ghost predicate Agrees(data: seq<byte>, src: seq<byte>, base: nat) {
    base <= |data| && |data| - base <= |src| && src[..|data| - base] == data[base..]
  }

  lemma AgreesAt(data: seq<byte>, src: seq<byte>, base: nat, k: nat)
    requires Agrees(data, src, base) && base + k < |data|
    ensures k < |src| && src[k] == data[base + k]
  {
    assert src[..|data| - base][k] == data[base..][k];
  }

  /** A window over src holds the bits of the data from its first byte on, one by one. */
  lemma WindowBit(data: seq<byte>, src: seq<byte>, base: nat, i: nat, reach: nat, x: nat)
    requires Agrees(data, src, base) && i + reach <= |src|
    requires x < 8 * reach && 8 * (base + i) + x < 8 * |data|
    ensures Unpack(src[i..i + reach])[x] == Unpack(data)[8 * (base + i) + x]
  {
    hide Unpack, ToBits, Agrees;
    var q, r, pos := x / 8, x % 8, 8 * (base + i) + x;
    DivModUnique(pos, 8, base + i + q, r);
    UnpackAt(src[i..i + reach], x);
    UnpackAt(data, pos);
    AgreesAt(data, src, base, i + q);
  }

  lemma SlicesAgree<T>(a: seq<T>, b: seq<T>, i: nat, j: nat, n: nat)
    requires i + n <= |a| && j + n <= |b|
    requires forall x, y | i <= x < i + n && y == j - i + x :: a[x] == b[y]
    ensures a[i..i + n] == b[j..j + n]
  {
    var s, t := a[i..i + n], b[j..j + n];
    forall m | 0 <= m < n ensures s[m] == t[m] {
      assert a[i + m] == b[j + m];
    }
  }

  lemma WindowHolds(data: seq<byte>, src: seq<byte>, base: nat, i: nat, reach: nat, start: nat, k: nat, n: nat)
    requires Agrees(data, src, base) && i + reach <= |src|
    requires start == 8 * (base + i) && k + n <= 8 * reach && start + k + n <= 8 * |data|
    ensures Unpack(src[i..i + reach])[k..k + n] == Unpack(data)[start + k..start + k + n]
  {
    hide Unpack, Agrees;
    var w, d := Unpack(src[i..i + reach]), Unpack(data);
    forall x, y | k <= x < k + n && y == start + x ensures w[x] == d[y] {
      WindowBit(data, src, base, i, reach, x);
    }
    SlicesAgree(w, d, k, start + k, n);
  }

  /** Wherever its window comes from, buffer or tail, a read takes the bits of the data and nothing else. */
  lemma FieldExact(data: seq<byte>, src: seq<byte>, base: nat, i: nat, pos: nat, n: nat)
    requires pos / 8 == base + i && i + 8 <= |src| && n <= 32 && pos + n <= 8 * |data|
    requires Agrees(data, src, base)
    ensures Field(src[i..i + 8], pos % 8, n) == FromBits(Unpack(data)[pos..pos + n])
  {
    hide Unpack, FromBits, FromLe, Shr, BitAnd, Pow2, Agrees;
    ShiftAndMask(src[i..i + 8], pos % 8, n);
    WindowHolds(data, src, base, i, 8, 8 * (pos / 8), pos % 8, n);
  }

  lemma WideFieldExact(data: seq<byte>, src: seq<byte>, base: nat, i: nat, pos: nat, n: nat)
    requires pos / 8 == base + i && i + 12 <= |src| && n <= 64 && pos + n <= 8 * |data|
    requires Agrees(data, src, base)
    ensures WideField(src[i..i + 12], pos % 8, n) == FromBits(Unpack(data)[pos..pos + n])
  {
    hide Unpack, FromBits, FromLe, WideField, Agrees;
    WideShiftAndMask(src[i..i + 12], pos % 8, n);
    WindowHolds(data, src, base, i, 12, 8 * (pos / 8), pos % 8, n);
  }

  class BitReader {
    // the backing array, the data being its first dataLen bytes and the rest slack
    var padded: array<byte>
    var dataLen: nat
    var numBits: nat
    var bitsRead: nat
    var tailBase: nat
    const tail: array<byte>

    ghost predicate Valid()
      reads this, padded, tail
    {
      && tail.Length == TAIL_BYTES && tail != padded
      && dataLen <= padded.Length
      && numBits == 8 * dataLen
      && bitsRead <= numBits
      && (padded.Length - dataLen < WINDOW64_BYTES ==> TailFilled(padded[..dataLen], tail[..], tailBase))
    }

    /** The bits of the data. */
    ghost function DataBits(): (bits: seq<bool>)
      requires dataLen <= padded.Length
      reads `padded, `dataLen, padded
      ensures |bits| == 8 * dataLen
    {
      Unpack(padded[..dataLen])
    }

    constructor (backing: array<byte>, length: nat)
      requires length <= backing.Length
      ensures Valid() && fresh(tail)
      ensures padded == backing && dataLen == length && bitsRead == 0
      ensures backing[..] == old(backing[..])
    {
      tail := new byte[TAIL_BYTES];
      padded := backing;
      dataLen := length;
      numBits := length * 8;
      bitsRead := 0;
      tailBase := 0;
      new;
      if backing.Length - length < WINDOW64_BYTES {
        FillTail();
      }
    }

    /** Points the reader at the first length bytes of a backing array. */
    method Reset(backing: array<byte>, length: nat)
      requires length <= backing.Length && tail.Length == TAIL_BYTES && tail != backing
      modifies this, tail
      ensures Valid()
      ensures padded == backing && dataLen == length && bitsRead == 0
    {
      padded := backing;
      dataLen := length;
      numBits := length * 8;
      bitsRead := 0;
      if backing.Length - length < WINDOW64_BYTES {
        FillTail();
      }
    }

    method FillTail()
      requires tail.Length == TAIL_BYTES && tail != padded && dataLen <= padded.Length
      modifies this`tailBase, tail
      ensures TailFilled(padded[..dataLen], tail[..], tailBase)
    {
      tailBase := if dataLen < WINDOW64_BYTES then 0 else dataLen - WINDOW64_BYTES;
      var n := dataLen - tailBase;
      forall k | 0 <= k < n {
        tail[k] := padded[tailBase + k];
      }
      forall k | n <= k < TAIL_BYTES {
        tail[k] := 0;
      }
      assert tail[..][..n] == padded[..dataLen][tailBase..];
    }

    /** Reads up to 32 bits that are known to be there. */
    method LoadBits(bits: nat) returns (output: uint32)
      requires Valid() && bits <= 32 && bitsRead + bits <= numBits
      modifies this`bitsRead
      ensures bitsRead == old(bitsRead) + bits
      ensures output == FromBits(DataBits()[old(bitsRead)..bitsRead])
    {
      hide Unpack, FromBits, Shr, BitAnd, Field;
      var byteIndex := Shr(bitsRead, 3);
      ByteOf(bitsRead);
      var src, base := padded, 0;
      if byteIndex + WINDOW_BYTES > src.Length {
        src, base := tail, tailBase;
        byteIndex := byteIndex - tailBase;
      }
      assert padded[..dataLen] == padded[..dataLen][0..];
      var window := src[byteIndex..byteIndex + WINDOW_BYTES];
      assert window == src[..][byteIndex..byteIndex + WINDOW_BYTES];
      FieldExact(padded[..dataLen], src[..], base, byteIndex, bitsRead, bits);
      output := Field(window, BitAnd(bitsRead, 7), bits);
      bitsRead := bitsRead + bits;
    }

    /** Reads up to 64 bits that are known to be there, through a window a dword wider. */
    method LoadBits64(bits: nat) returns (output: uint64)
      requires Valid() && bits <= 64 && bitsRead + bits <= numBits
      modifies this`bitsRead
      ensures bitsRead == old(bitsRead) + bits
      ensures output == FromBits(DataBits()[old(bitsRead)..bitsRead])
    {
      hide Unpack, FromBits, Shr, BitAnd, WideField;
      var byteIndex := Shr(bitsRead, 3);
      ByteOf(bitsRead);
      var src, base := padded, 0;
      if byteIndex + WINDOW64_BYTES > src.Length {
        src, base := tail, tailBase;
        byteIndex := byteIndex - tailBase;
      }
      assert padded[..dataLen] == padded[..dataLen][0..];
      var window := src[byteIndex..byteIndex + WINDOW64_BYTES];
      assert window == src[..][byteIndex..byteIndex + WINDOW64_BYTES];
      WideFieldExact(padded[..dataLen], src[..], base, byteIndex, bitsRead, bits);
      output := WideField(window, BitAnd(bitsRead, 7), bits);
      bitsRead := bitsRead + bits;
    }

    method TryReadBits(bits: nat) returns (output: uint32, ok: bool)
      requires Valid() && bits <= 32
      modifies this`bitsRead
      ensures ok == (old(bitsRead) + bits <= numBits)
      ensures bitsRead == old(bitsRead) + if ok then bits else 0
      ensures ok ==> output == FromBits(DataBits()[old(bitsRead)..bitsRead])
    {
      if bitsRead + bits > numBits {
        return 0, false;
      }
      output := LoadBits(bits);
      ok := true;
    }

    /** Skips to the next byte boundary; false when the padding holds a set bit. */
    method ReadAlign() returns (ok: bool)
      requires Valid()
      modifies this`bitsRead
      ensures bitsRead == old(bitsRead) + AlignPad(old(bitsRead))
      ensures ok == (DataBits()[old(bitsRead)..bitsRead] == Zeros(AlignPad(old(bitsRead))))
    {
      hide Unpack, FromBits, TailFilled;
      var remainderBits := bitsRead % 8;
      if remainderBits != 0 {
        FromBitsZero(DataBits()[bitsRead..bitsRead + AlignPad(bitsRead)]);
        var value := LoadBits(8 - remainderBits);
        return value == 0;
      }
      NothingRead(DataBits(), bitsRead);
      return true;
    }

    /** The next n bytes of the data. */
    method ReadSlice(n: nat) returns (bytes: seq<byte>)
      requires Valid() && bitsRead % 8 == 0 && bitsRead + 8 * n <= numBits
      modifies this`bitsRead
      ensures bitsRead == old(bitsRead) + 8 * n
      ensures bytes == Pack(DataBits()[old(bitsRead)..bitsRead])
    {
      hide Unpack, Pack, Shr, TailFilled;
      ByteOf(bitsRead);
      var offset := Shr(bitsRead, 3);
      bitsRead := bitsRead + n * 8;
      bytes := padded[offset..offset + n];
      SliceOfTake(padded[..], dataLen, offset, offset + n);
      assert bytes == padded[..][offset..offset + n] && padded[..dataLen] == padded[..][..dataLen];
      UnpackSlice(padded[..dataLen], offset, offset + n);
      PackUnpack(bytes);
    }

    method BitsRemaining() returns (n: nat)
      requires Valid()
      ensures n == numBits - bitsRead
    {
      n := numBits - bitsRead;
    }
  }
}
