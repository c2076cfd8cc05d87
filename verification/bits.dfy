/** Least-significant-bit-first bit strings and their numeric value. */
module Bits {

  type byte = x: nat | x < 256

  // ---- multiplication facts, one at a time, so that no proof searches for them ----

  lemma MulAssociates(a: int, b: int, c: int)
    ensures a * (b * c) == (a * b) * c
  {
  }

  lemma MulDistributes(a: int, b: int, c: int)
    ensures (a + b) * c == a * c + b * c
    ensures c * (a + b) == c * a + c * b
  {
  }

  lemma MulSubtracts(a: int, b: int, c: int)
    ensures (a - b) * c == a * c - b * c
  {
  }

  lemma MulMonotone(a: int, b: int, c: int)
    requires a <= b && 0 <= c
    ensures a * c <= b * c
    ensures c * a <= c * b
  {
  }

  /** The quotient and the remainder of a division are unique. */
  lemma DivModUnique(x: int, d: int, q: int, r: int)
    requires 0 <= r < d
    requires x == q * d + r
    ensures x / d == q && x % d == r
  {
    var p, t := x / d, x % d;
    if p < q {
      MulMonotone(p + 1, q, d);
      MulDistributes(p, 1, d);
      assert false;
    } else if q < p {
      MulMonotone(q + 1, p, d);
      MulDistributes(q, 1, d);
      assert false;
    }
  }

  function Pow2(n: nat): (p: nat)
    ensures p > 0
  {
    if n == 0 then 1 else 2 * Pow2(n - 1)
  }

  lemma Pow2Doubles(n: nat)
    ensures Pow2(n + 1) == 2 * Pow2(n)
  {
  }

  lemma {:induction false} Pow2Add(a: nat, b: nat)
    ensures Pow2(a + b) == Pow2(a) * Pow2(b)
  {
    if a > 0 {
      Pow2Add(a - 1, b);
      MulAssociates(2, Pow2(a - 1), Pow2(b));
    }
  }

  lemma {:induction false} Pow2Monotone(a: nat, b: nat)
    requires a <= b
    ensures Pow2(a) <= Pow2(b)
  {
    if a < b {
      Pow2Monotone(a, b - 1);
    }
  }

  lemma SmallPowers()
    ensures Pow2(0) == 1 && Pow2(1) == 2 && Pow2(3) == 8 && Pow2(4) == 16
  {
  }

  /** The powers of two that size the machine words. */
  lemma Pow2Widths()
    ensures Pow2(3) == 8
    ensures Pow2(8) == 0x100
    ensures Pow2(16) == 0x1_0000
    ensures Pow2(31) == 0x8000_0000
    ensures Pow2(32) == 0x1_0000_0000
    ensures Pow2(63) == 0x8000_0000_0000_0000
    ensures Pow2(64) == 0x1_0000_0000_0000_0000
    ensures Pow2(127) == 0x8000_0000_0000_0000_0000_0000_0000_0000
    ensures Pow2(128) == 0x1_0000_0000_0000_0000_0000_0000_0000_0000
  {
    SmallPowers();
    hide Pow2;
    Pow2Add(4, 4);
    Pow2Add(8, 8);
    Pow2Add(16, 16);
    Pow2Add(32, 32);
    Pow2Add(64, 64);
    Pow2Add(31, 1);
    Pow2Add(63, 1);
    Pow2Add(127, 1);
  }

  /** The low n bits of v, least significant first. */
  function ToBits(v: nat, n: nat): (s: seq<bool>)
    ensures |s| == n
    decreases n
  {
    if n == 0 then [] else [v % 2 == 1] + ToBits(v / 2, n - 1)
  }

  /** The number a bit string stands for. */
  function FromBits(s: seq<bool>): nat {
    if s == [] then 0 else (if s[0] then 1 else 0) + 2 * FromBits(s[1..])
  }

  function Zeros(n: nat): (s: seq<bool>)
    ensures |s| == n
  {
    seq(n, _ => false)
  }

  lemma {:induction false} FromBitsBound(s: seq<bool>)
    ensures FromBits(s) < Pow2(|s|)
  {
    if s != [] {
      FromBitsBound(s[1..]);
    }
  }

  lemma {:induction false} FromBitsConcat(a: seq<bool>, b: seq<bool>)
    ensures FromBits(a + b) == FromBits(a) + Pow2(|a|) * FromBits(b)
  {
    if a == [] {
      assert a + b == b;
    } else {
      assert (a + b)[1..] == a[1..] + b;
      FromBitsConcat(a[1..], b);
      var n, x, y := |a| - 1, FromBits(a[1..]), FromBits(b);
      assert (a + b)[0] == a[0];
      assert FromBits(a + b) == (if a[0] then 1 else 0) + 2 * (x + Pow2(n) * y);
      MulAssociates(2, Pow2(n), y);
    }
  }

  /** Reading a bit string as a number and writing the number back is the identity. */
  lemma {:induction false} ToBitsOfFromBits(s: seq<bool>)
    ensures ToBits(FromBits(s), |s|) == s
  {
    if s != [] {
      ToBitsOfFromBits(s[1..]);
      var r := FromBits(s[1..]);
      assert FromBits(s) / 2 == r;
      assert s == [s[0]] + s[1..];
    }
  }

  lemma {:induction false} FromBitsOfToBits(v: nat, n: nat)
    requires v < Pow2(n)
    ensures FromBits(ToBits(v, n)) == v
    decreases n
  {
    if n > 0 {
      FromBitsOfToBits(v / 2, n - 1);
      var s := ToBits(v, n);
      assert s[1..] == ToBits(v / 2, n - 1);
    }
  }

  /** v shifted right n places. */
  function Shr(v: nat, n: nat): nat
    decreases n
  {
    if n == 0 then v else Shr(v / 2, n - 1)
  }

  lemma DivDiv(x: nat, a: nat, b: nat)
    requires a > 0 && b > 0
    ensures a * b > 0
    ensures x / a / b == x / (a * b)
  {
    var q, r := x / a, x % a;
    var p, t := q / b, q % b;
    MulMonotone(1, a, b);
    assert x == q * a + r && q == p * b + t;
    MulDistributes(p * b, t, a);
    MulAssociates(p, b, a);
    MulMonotone(t, b - 1, a);
    MulDistributes(b, -1, a);
    DivModUnique(x, a * b, p, t * a + r);
  }

  lemma {:induction false} ShrIsDiv(v: nat, n: nat)
    ensures Shr(v, n) == v / Pow2(n)
    decreases n
  {
    if n > 0 {
      ShrIsDiv(v / 2, n - 1);
      DivDiv(v, 2, Pow2(n - 1));
    }
  }

  lemma SeqAssoc<T>(a: seq<T>, b: seq<T>, c: seq<T>)
    ensures a + (b + c) == (a + b) + c
  {
  }

  /** One run of a + b bits is a run of a bits followed by a run of b bits. */
  lemma {:induction false} ToBitsSplit(v: nat, a: nat, b: nat)
    ensures ToBits(v, a + b) == ToBits(v, a) + ToBits(Shr(v, a), b)
    decreases a
  {
    if a > 0 {
      ToBitsSplit(v / 2, a - 1, b);
      SeqAssoc([v % 2 == 1], ToBits(v / 2, a - 1), ToBits(Shr(v, a), b));
    }
  }

  lemma ConcatDivides(a: seq<bool>, b: seq<bool>)
    ensures FromBits(a + b) % Pow2(|a|) == FromBits(a)
    ensures FromBits(a + b) / Pow2(|a|) == FromBits(b)
  {
    hide FromBits;
    FromBitsConcat(a, b);
    FromBitsBound(a);
    DivModUnique(FromBits(a + b), Pow2(|a|), FromBits(b), FromBits(a));
  }

  /** Slicing a bit string is dividing and reducing its number. */
  lemma FromBitsSlices(s: seq<bool>, k: nat)
    requires k <= |s|
    ensures FromBits(s[..k]) == FromBits(s) % Pow2(k)
    ensures FromBits(s[k..]) == FromBits(s) / Pow2(k)
  {
    var a, b := s[..k], s[k..];
    assert s == a + b;
    ConcatDivides(a, b);
  }

  lemma {:induction false} FromBitsZero(s: seq<bool>)
    ensures FromBits(s) == 0 <==> s == Zeros(|s|)
  {
    if s != [] {
      FromBitsZero(s[1..]);
      assert s == [s[0]] + s[1..];
      assert Zeros(|s|) == [false] + Zeros(|s| - 1);
    }
  }

  lemma NothingRead(s: seq<bool>, pos: nat)
    requires pos <= |s|
    ensures s[pos..pos] == Zeros(0) && FromBits(s[pos..pos]) == 0
  {
  }

  /** Number of bits needed for x: floor(log2 x) + 1, and 0 for 0 (Go's bits.Len). */
  function BitLen(x: nat): nat {
    if x == 0 then 0 else 1 + BitLen(x / 2)
  }

  /** BitLen is the least width that holds x. */
  lemma {:induction false} BitLenLeast(x: nat, n: nat)
    ensures BitLen(x) <= n <==> x < Pow2(n)
  {
    if x > 0 && n > 0 {
      BitLenLeast(x / 2, n - 1);
    }
  }

  // ---- bytes ----

  /** The bit string of a byte string: each byte least significant bit first. */
  function Unpack(s: seq<byte>): (b: seq<bool>)
    ensures |b| == 8 * |s|
  {
    if s == [] then [] else ToBits(s[0], 8) + Unpack(s[1..])
  }

  /** The byte string of a whole number of bytes of bits. */
  function Pack(b: seq<bool>): (s: seq<byte>)
    requires |b| % 8 == 0
    ensures 8 * |s| == |b|
  {
    if b == [] then [] else
      FromBitsBound(b[..8]);
      assert Pow2(8) == 256;
      [FromBits(b[..8])] + Pack(b[8..])
  }

  lemma {:induction false} PackUnpack(s: seq<byte>)
    ensures Pack(Unpack(s)) == s
  {
    if s != [] {
      var b := Unpack(s);
      assert b[..8] == ToBits(s[0], 8) && b[8..] == Unpack(s[1..]);
      assert Pow2(8) == 256;
      FromBitsOfToBits(s[0], 8);
      PackUnpack(s[1..]);
    }
  }

  lemma {:induction false} UnpackPack(b: seq<bool>)
    requires |b| % 8 == 0
    ensures Unpack(Pack(b)) == b
  {
    if b != [] {
      var s := Pack(b);
      ToBitsOfFromBits(b[..8]);
      assert s[1..] == Pack(b[8..]);
      UnpackPack(b[8..]);
      assert b == b[..8] + b[8..];
    }
  }

  /** Bit x of a byte string is bit x % 8 of byte x / 8. */
  lemma {:induction false} UnpackAt(s: seq<byte>, x: nat)
    requires x < 8 * |s|
    ensures Unpack(s)[x] == ToBits(s[x / 8], 8)[x % 8]
  {
    hide ToBits;
    if x >= 8 {
      UnpackAt(s[1..], x - 8);
    }
  }

  lemma {:induction false} UnpackConcat(s: seq<byte>, t: seq<byte>)
    ensures Unpack(s + t) == Unpack(s) + Unpack(t)
  {
    if s == [] {
      assert s + t == t;
    } else {
      assert (s + t)[1..] == s[1..] + t;
      UnpackConcat(s[1..], t);
    }
  }

  lemma SplitThree<T>(s: seq<T>, i: nat, j: nat)
    requires i <= j <= |s|
    ensures s == s[..i] + (s[i..j] + s[j..])
  {
  }

  lemma MiddleSlice<T>(x: seq<T>, y: seq<T>, z: seq<T>)
    ensures (x + (y + z))[|x|..|x| + |y|] == y
  {
  }

  lemma UnpackMiddle(s: seq<byte>, a: seq<byte>, b: seq<byte>, c: seq<byte>)
    requires s == a + (b + c)
    ensures Unpack(b) == Unpack(s)[8 * |a|..8 * |a| + 8 * |b|]
  {
    hide Unpack;
    UnpackConcat(a, b + c);
    UnpackConcat(b, c);
    MiddleSlice(Unpack(a), Unpack(b), Unpack(c));
  }

  lemma UnpackSlice(s: seq<byte>, i: nat, j: nat)
    requires i <= j <= |s|
    ensures Unpack(s[i..j]) == Unpack(s)[8 * i..8 * j]
  {
    hide Unpack;
    SplitThree(s, i, j);
    UnpackMiddle(s, s[..i], s[i..j], s[j..]);
  }

  lemma UnpackInjective(s: seq<byte>, t: seq<byte>)
    requires Unpack(s) == Unpack(t)
    ensures s == t
  {
    PackUnpack(s);
    PackUnpack(t);
  }

  lemma {:induction false} ZeroBits(n: nat)
    ensures ToBits(0, n) == Zeros(n)
    ensures 0 < Pow2(n)
  {
    if n > 0 {
      ZeroBits(n - 1);
    }
  }

  lemma OneBit(value: bool)
    ensures ToBits(if value then 1 else 0, 1) == [value]
    ensures Pow2(1) == 2
  {
  }

  lemma Pow2Eight()
    ensures Pow2(8) == 256
  {
  }
}
