/** Fixed-width machine words as Go defines them: wrap-around, shifts, masks and little-endian memory. */
module Words {
  import opened Bits

  const TWO31 := 0x8000_0000
  const TWO32 := 0x1_0000_0000
  const TWO63 := 0x8000_0000_0000_0000
  const TWO64 := 0x1_0000_0000_0000_0000
  const TWO127 := 0x8000_0000_0000_0000_0000_0000_0000_0000
  const TWO128 := 0x1_0000_0000_0000_0000_0000_0000_0000_0000

  type uint32 = x: nat | x < TWO32
  type uint64 = x: nat | x < TWO64
  type int32 = x: int | -TWO31 <= x < TWO31
  type int64 = x: int | -TWO63 <= x < TWO63
  type int128 = x: int | -TWO127 <= x < TWO127

  /** Conversion to uint32 and uint64, and every operation of those types: reduction modulo the width. */
  function Wrap32(x: int): uint32 { x % TWO32 }

  function Wrap64(x: int): uint64 { x % TWO64 }

  /** Reinterpretation of an unsigned pattern as two's complement. */
  function Signed32(x: uint32): int32 { if x < TWO31 then x else x - TWO32 }

  function Signed64(x: uint64): int64 { if x < TWO63 then x else x - TWO64 }

  lemma WrapRoundTrips32(x: int32)
    ensures Signed32(Wrap32(x)) == x
  {
  }

  lemma WrapRoundTrips(x: int64)
    ensures Signed64(Wrap64(x)) == x
  {
  }

  lemma ModDifference(x: int, y: int, m: int)
    requires m > 0
    ensures (x % m - y % m) % m == (x - y) % m
  {
    var a, b := x / m, y / m;
    var r := (x % m - y % m) % m;
    var c := (x % m - y % m) / m;
    assert x % m - y % m == c * m + r;
    MulDistributes(a, -b, m);
    MulDistributes(a - b, c, m);
    DivModUnique(x - y, m, a - b + c, r);
  }

  lemma ModSum(x: int, y: int, m: int)
    requires m > 0
    ensures (x % m + y % m) % m == (x + y) % m
    ensures (x % m + y) % m == (x + y) % m
  {
    var a, b := x / m, y / m;
    var r, c := (x % m + y % m) % m, (x % m + y % m) / m;
    assert x % m + y % m == c * m + r;
    MulDistributes(a, b, m);
    MulDistributes(a + b, c, m);
    DivModUnique(x + y, m, a + b + c, r);
    var r', c' := (x % m + y) % m, (x % m + y) / m;
    assert x % m + y == c' * m + r';
    MulDistributes(a, c', m);
    DivModUnique(x + y, m, a + c', r');
  }

  /** x << n on a 64-bit word: bits pushed past the top are lost, all of them when n reaches 64. */
  function Shl64(x: uint64, n: nat): uint64 {
    x * Pow2(n) % TWO64
  }

  function BitOr(x: nat, y: nat): nat
    decreases x + y
  {
    if x == 0 then y else if y == 0 then x
    else (if x % 2 == 1 || y % 2 == 1 then 1 else 0) + 2 * BitOr(x / 2, y / 2)
  }

  function BitAnd(x: nat, y: nat): nat {
    if x == 0 || y == 0 then 0
    else (if x % 2 == 1 && y % 2 == 1 then 1 else 0) + 2 * BitAnd(x / 2, y / 2)
  }

  /** Go's x &^ y. */
  function BitClear(x: nat, y: nat): nat
    decreases x
  {
    if x == 0 then 0
    else (if x % 2 == 1 && y % 2 == 0 then 1 else 0) + 2 * BitClear(x / 2, y / 2)
  }

  /** Merging a field into the free high bits of a word is addition. */
  lemma {:induction false} OrIsSum(x: nat, y: nat, s: nat)
    requires x < Pow2(s)
    ensures BitOr(x, y * Pow2(s)) == x + y * Pow2(s)
    decreases s
  {
    if s > 0 {
      MulAssociates(y, 2, Pow2(s - 1));
      MulAssociates(2, y, Pow2(s - 1));
      assert y * Pow2(s) == 2 * (y * Pow2(s - 1));
      OrIsSum(x / 2, y, s - 1);
    }
  }

  lemma ModByHalves(x: nat, n: nat)
    requires n > 0
    ensures x % Pow2(n) == 2 * (x / 2 % Pow2(n - 1)) + x % 2
  {
    var h := Pow2(n - 1);
    var q, r := x / 2 / h, x / 2 % h;
    assert x / 2 == q * h + r;
    assert q * (2 * h) == 2 * (q * h);
    DivModUnique(x, 2 * h, q, 2 * r + x % 2);
  }

  /** Masking with n ones keeps the low n bits. */
  lemma {:induction false} AndMask(x: nat, n: nat)
    ensures BitAnd(x, Pow2(n) - 1) == x % Pow2(n)
    decreases n
  {
    var m := Pow2(n) - 1;
    if n == 0 {
      DivModUnique(x, 1, x, 0);
    } else if x == 0 {
      DivModUnique(0, m + 1, 0, 0);
    } else {
      AndMask(x / 2, n - 1);
      ModByHalves(x, n);
      var h := Pow2(n - 1);
      assert m == 2 * h - 1;
      assert m / 2 == h - 1 && m % 2 == 1;
      assert BitAnd(x, m) == x % 2 + 2 * BitAnd(x / 2, m / 2);
    }
  }

  lemma AndStep(x: nat, h: nat)
    ensures BitAnd(x, 2 * h) == 2 * BitAnd(x / 2, h)
  {
    DivModUnique(2 * h, 2, h, 0);
  }

  /** Masking with ones further up is masking what stands there. */
  lemma {:induction false} AndShifted(x: nat, y: nat, s: nat)
    ensures BitAnd(x, y * Pow2(s)) == BitAnd(Shr(x, s), y) * Pow2(s)
    decreases s
  {
    hide BitAnd;
    if s > 0 {
      var h := y * Pow2(s - 1);
      MulAssociates(y, 2, Pow2(s - 1));
      MulAssociates(2, y, Pow2(s - 1));
      AndShifted(x / 2, y, s - 1);
      AndStep(x, h);
      MulAssociates(BitAnd(Shr(x, s), y), 2, Pow2(s - 1));
      MulAssociates(2, BitAnd(Shr(x, s), y), Pow2(s - 1));
    }
  }

  lemma SameScaled(a: int, b: int, p: nat)
    requires p > 0
    ensures a * p == b * p <==> a == b
  {
    if a < b {
      MulMonotone(a + 1, b, p);
      MulDistributes(a, 1, p);
    } else if b < a {
      MulMonotone(b + 1, a, p);
      MulDistributes(b, 1, p);
    }
  }

  /** The n bits from s up, left in place by a mask of n ones at s, are all set exactly when the mask comes back. */
  lemma MaskedInPlace(x: nat, n: nat, ones: nat, s: nat)
    requires ones == Pow2(n) - 1
    ensures BitAnd(x, ones * Pow2(s)) == ones * Pow2(s) <==> x / Pow2(s) % Pow2(n) == ones
  {
    hide BitAnd, Shr, Pow2;
    AndShifted(x, ones, s);
    AndMask(Shr(x, s), n);
    ShrIsDiv(x, s);
    SameScaled(x / Pow2(s) % Pow2(n), ones, Pow2(s));
  }

  /** All ones shifted down to n of them: the mask the 64-bit paths build. */
  lemma {:induction false} OnesShifted(n: nat, k: nat)
    ensures Shr(Pow2(n + k) - 1, k) == Pow2(n) - 1
    decreases k
  {
    if k > 0 {
      assert (Pow2(n + k) - 1) / 2 == Pow2(n + k - 1) - 1;
      OnesShifted(n, k - 1);
    }
  }

  /** The 64-bit ones mask of n bits. */
  function Ones64(n: nat): (m: uint64)
    requires n <= 64
    ensures m == Pow2(n) - 1
  {
    Pow2Widths();
    OnesShifted(n, 64 - n);
    Pow2Monotone(n, 64);
    Shr(TWO64 - 1, 64 - n)
  }

  lemma {:induction false} ClearNothing(x: nat)
    ensures BitClear(x, 0) == x
  {
    if x > 0 {
      ClearNothing(x / 2);
    }
  }

  lemma ClearLow3(x: nat)
    ensures BitClear(x, 7) == x - x % 8
  {
    ClearNothing(x / 8);
    assert BitClear(x, 7) == 2 * BitClear(x / 2, 3);
    assert BitClear(x / 2, 3) == 2 * BitClear(x / 4, 1) by { assert x / 2 / 2 == x / 4; }
    assert BitClear(x / 4, 1) == 2 * BitClear(x / 8, 0) by { assert x / 4 / 2 == x / 8; }
  }

  /** Bits from pos to the next byte boundary. */
  function AlignPad(pos: nat): (n: nat)
    ensures n < 8 && (pos + n) % 8 == 0
  {
    (8 - pos % 8) % 8
  }

  lemma NegatedLow3(pos: nat)
    ensures (0 - pos) % TWO64 % 8 == AlignPad(pos)
  {
    var q, r, k := pos / 8, pos % 8, (0 - pos) / TWO64;
    assert (0 - pos) % TWO64 == 0 - pos - k * TWO64;
    DivModUnique((0 - pos) % TWO64, 8, (if r == 0 then 0 - q else 0 - q - 1) - k * (TWO64 / 8), AlignPad(pos));
  }

  /** The pad width as the streams compute it, two's complement negation and a mask. */
  lemma NegateAndMask(pos: nat)
    ensures BitAnd(Wrap64(0 - pos), 7) == AlignPad(pos)
  {
    assert Pow2(3) == 8;
    hide BitAnd, Pow2;
    AndMask(Wrap64(0 - pos), 3);
    NegatedLow3(pos);
  }

  lemma ModOfScaled(v: nat, m: nat, p: nat)
    requires m > 0 && p > 0
    ensures m * p > 0
    ensures v * p % (m * p) == (v % m) * p
    ensures (v % m) * p + p <= m * p
  {
    var q, r := v / m, v % m;
    assert v == q * m + r;
    MulDistributes(q * m, r, p);
    MulAssociates(q, m, p);
    MulMonotone(r + 1, m, p);
    MulDistributes(r, 1, p);
    MulMonotone(0, r, p);
    DivModUnique(v * p, m * p, q, r * p);
  }

  /** Shifting a value up inside a word keeps the low part that fits. */
  lemma ShlKeepsLow(v: nat, s: nat)
    requires v < TWO64 && s <= 64
    ensures Shl64(v, s) == (v % Pow2(64 - s)) * Pow2(s)
    ensures (v % Pow2(64 - s)) * Pow2(s) + Pow2(s) <= TWO64
  {
    Pow2Widths();
    Pow2Add(64 - s, s);
    ModOfScaled(v, Pow2(64 - s), Pow2(s));
  }

  lemma {:induction false} OrBound(x: nat, y: nat, n: nat)
    requires x < Pow2(n) && y < Pow2(n)
    ensures BitOr(x, y) < Pow2(n)
    decreases n
  {
    if n > 0 && x > 0 && y > 0 {
      OrBound(x / 2, y / 2, n - 1);
    }
  }

  function Or64(x: uint64, y: uint64): (r: uint64) {
    Pow2Widths();
    OrBound(x, y, 64);
    BitOr(x, y)
  }

  lemma {:induction false} ShrBound(x: nat, n: nat)
    ensures Shr(x, n) <= x
    decreases n
  {
    if n > 0 {
      ShrBound(x / 2, n - 1);
    }
  }

  function Shr64(x: uint64, n: nat): (r: uint64) {
    ShrBound(x, n);
    Shr(x, n)
  }

  lemma {:induction false} AndBound(x: nat, y: nat)
    ensures BitAnd(x, y) <= x
  {
    if x > 0 && y > 0 {
      AndBound(x / 2, y / 2);
    }
  }

  function And64(x: uint64, y: uint64): (r: uint64) {
    AndBound(x, y);
    BitAnd(x, y)
  }

  // ---- little-endian memory ----

  function LeBytes(w: nat, n: nat): (s: seq<byte>)
    ensures |s| == n
    decreases n
  {
    if n == 0 then [] else [w % 256] + LeBytes(w / 256, n - 1)
  }

  function FromLe(s: seq<byte>): nat {
    if s == [] then 0 else s[0] + 256 * FromLe(s[1..])
  }

  lemma {:induction false} FromBitsIsMod(w: nat, n: nat)
    ensures FromBits(ToBits(w, n)) == w % Pow2(n)
    decreases n
  {
    if n > 0 {
      FromBitsIsMod(w / 2, n - 1);
      ModByHalves(w, n);
      assert ToBits(w, n)[1..] == ToBits(w / 2, n - 1);
    }
  }

  /** Bits above the width never reach the bit string. */
  lemma {:induction false} ToBitsMod(w: nat, n: nat)
    ensures ToBits(w % Pow2(n), n) == ToBits(w, n)
    decreases n
  {
    FromBitsBound(ToBits(w, n));
    FromBitsIsMod(w, n);
    ToBitsOfFromBits(ToBits(w, n));
  }

  lemma ToBitsOfLowByte(w: nat)
    ensures ToBits(w % 256, 8) == ToBits(w, 8)
    ensures Shr(w, 8) == w / 256
  {
    var s := ToBits(w, 8);
    assert Pow2(8) == 256;
    ShrIsDiv(w, 8);
    ToBitsMod(w, 8);
  }

  /** A word stored little endian is its bits in order. */
  lemma {:induction false} UnpackLe(w: nat, n: nat)
    ensures Unpack(LeBytes(w, n)) == ToBits(w, 8 * n)
    decreases n
  {
    hide ToBits;
    if n > 0 {
      UnpackLe(w / 256, n - 1);
      ToBitsSplit(w, 8, 8 * (n - 1));
      ToBitsOfLowByte(w);
      assert LeBytes(w, n)[1..] == LeBytes(w / 256, n - 1);
    }
  }

  /** A word loaded little endian is the number of its bits. */
  lemma {:induction false} FromLeIsBits(s: seq<byte>)
    ensures FromLe(s) == FromBits(Unpack(s))
  {
    if s != [] {
      FromLeIsBits(s[1..]);
      FromBitsConcat(ToBits(s[0], 8), Unpack(s[1..]));
      assert Pow2(8) == 256;
      FromBitsOfToBits(s[0], 8);
    }
  }

  /** binary.LittleEndian.PutUint64. */
  method PutUint64(a: array<byte>, offset: nat, w: uint64)
    requires offset + 8 <= a.Length
    modifies a
    ensures a[..] == old(a[..offset]) + LeBytes(w, 8) + old(a[offset + 8..])
  {
    hide LeBytes;
    var bytes := LeBytes(w, 8);
    forall k | 0 <= k < 8 {
      a[offset + k] := bytes[k];
    }
  }
}
