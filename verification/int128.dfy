/** The two-lane 128-bit integers. */
module Int128s {
  import opened Bits
  import opened Words

  datatype Uint128 = Uint128(lo: uint64, hi: uint64) {
    /** The number the lanes stand for. */
    ghost function Val(): (v: nat)
      ensures v < TWO128
    {
      lo + hi * TWO64
    }

    predicate IsZero() { lo == 0 && hi == 0 }

    function Len(): nat {
      if hi != 0 then 64 + BitLen(hi) else BitLen(lo)
    }

    function Cmp(y: Uint128): int {
      if hi != y.hi then (if hi < y.hi then -1 else 1)
      else if lo != y.lo then (if lo < y.lo then -1 else 1)
      else 0
    }

    function Add(y: Uint128): Uint128 {
      var (l, carry) := Add64(lo, y.lo, 0);
      var (h, _) := Add64(hi, y.hi, carry);
      Uint128(l, h)
    }

    function Sub(y: Uint128): Uint128 {
      var (l, borrow) := Sub64(lo, y.lo, 0);
      var (h, _) := Sub64(hi, y.hi, borrow);
      Uint128(l, h)
    }

    function Mul(y: Uint128): Uint128 {
      var (h, l) := Mul64(lo, y.lo);
      Uint128(l, Wrap64(h + Wrap64(Wrap64(lo * y.hi) + Wrap64(hi * y.lo))))
    }

    function Neg(): Uint128 { Uint128(0, 0).Sub(this) }

    function Not(): Uint128 { Uint128(TWO64 - 1 - lo, TWO64 - 1 - hi) }

    function Or(y: Uint128): Uint128 {
      Uint128(Or64(lo, y.lo), Or64(hi, y.hi))
    }

    function Lsh(n: nat): Uint128 {
      if n == 0 then this
      else if n < 64 then Uint128(Shl64(lo, n), Or64(Shl64(hi, n), Shr64(lo, 64 - n)))
      else if n < 128 then Uint128(0, Shl64(lo, n - 64))
      else Uint128(0, 0)
    }

    function Rsh(n: nat): Uint128 {
      if n == 0 then this
      else if n < 64 then Uint128(Or64(Shr64(lo, n), Shl64(hi, 64 - n)), Shr64(hi, n))
      else if n < 128 then Uint128(Shr64(hi, n - 64), 0)
      else Uint128(0, 0)
    }

    function ToInt128(): Int128 { Int128(lo, hi) }
  }

  /** The same lanes read as two's complement. */
  datatype Int128 = Int128(lo: uint64, hi: uint64) {
    ghost function Val(): (v: int128) {
      AsSigned(lo + hi * TWO64)
    }

    static function From64(x: int64): Int128 {
      Int128(Wrap64(x), if x < 0 then TWO64 - 1 else 0)
    }

    function ToUint128(): Uint128 { Uint128(lo, hi) }

    predicate IsNegative() { Shr64(hi, 63) != 0 }

    function Cmp(y: Int128): int {
      if hi != y.hi then (if Signed64(hi) < Signed64(y.hi) then -1 else 1)
      else if lo != y.lo then (if lo < y.lo then -1 else 1)
      else 0
    }

    function Rsh(n: nat): Int128 {
      if n >= 128 then (if IsNegative() then From64(-1) else Int128(0, 0))
      else
        var result := ToUint128().Rsh(n);
        if IsNegative() && n > 0 then result.Or(Uint128(0, 0).Not().Lsh(128 - n)).ToInt128()
        else result.ToInt128()
    }
  }

  /** A 128-bit pattern as a signed number. */
  function AsSigned(u: int): int {
    if u < TWO127 then u else u - TWO128
  }

  // ---- math/bits, as documented ----

  /** bits.Add64: sum and carry out. */
  function Add64(x: uint64, y: uint64, carry: nat): (uint64, nat) {
    (Wrap64(x + y + carry), (x + y + carry) / TWO64)
  }

  /** bits.Sub64: difference and borrow out. */
  function Sub64(x: uint64, y: uint64, borrow: nat): (uint64, nat) {
    (Wrap64(x - y - borrow), if x < y + borrow then 1 else 0)
  }

  lemma ProductBound(x: uint64, y: uint64)
    ensures 0 <= x * y <= (TWO64 - 1) * (TWO64 - 1)
  {
    MulMonotone(0, x, y);
    MulMonotone(x, TWO64 - 1, y);
    MulMonotone(y, TWO64 - 1, TWO64 - 1);
  }

  /** bits.Mul64: the full product as high and low words. */
  function Mul64(x: uint64, y: uint64): (uint64, uint64) {
    ProductBound(x, y);
    (x * y / TWO64, Wrap64(x * y))
  }

  // ---- the unsigned operations compute with the number ----

  lemma AddVal(x: Uint128, y: Uint128)
    ensures x.Add(y).Val() == (x.Val() + y.Val()) % TWO128
  {
    var l, h := x.lo + y.lo, x.hi + y.hi;
    var c := l / TWO64;
    var d := (h + c) / TWO64;
    DivModUnique(x.Val() + y.Val(), TWO128, d, x.Add(y).Val());
  }

  lemma SubVal(x: Uint128, y: Uint128)
    ensures x.Sub(y).Val() == (x.Val() - y.Val()) % TWO128
  {
    var b := if x.lo < y.lo then 1 else 0;
    var d := if x.hi < y.hi + b then 1 else 0;
    DivModUnique(x.lo - y.lo, TWO64, -b, x.lo - y.lo + b * TWO64);
    DivModUnique(x.hi - y.hi - b, TWO64, -d, x.hi - y.hi - b + d * TWO64);
    DivModUnique(x.Val() - y.Val(), TWO128, -d, x.Sub(y).Val());
  }

  lemma CmpVal(x: Uint128, y: Uint128)
    ensures x.Cmp(y) < 0 <==> x.Val() < y.Val()
    ensures x.Cmp(y) == 0 <==> x.Val() == y.Val()
    ensures x.Val() == y.Val() <==> x == y
  {
  }

  lemma ScaledHalves(lo: nat, hi: nat, n: nat)
    requires n > 0
    ensures (lo + hi * Pow2(n)) / 2 == lo / 2 + hi * Pow2(n - 1)
    ensures (lo + hi * Pow2(n)) % 2 == lo % 2
    ensures hi > 0 ==> lo + hi * Pow2(n) > 0
  {
    var k := hi * Pow2(n - 1);
    assert hi * Pow2(n) == 2 * k by { MulAssociates(hi, 2, Pow2(n - 1)); MulAssociates(2, hi, Pow2(n - 1)); }
    if hi > 0 {
      MulMonotone(1, hi, Pow2(n));
    }
  }

  lemma {:induction false} BitLenScaled(lo: nat, hi: nat, n: nat)
    requires lo < Pow2(n) && hi > 0
    ensures BitLen(lo + hi * Pow2(n)) == n + BitLen(hi)
    decreases n
  {
    if n > 0 {
      var v := lo + hi * Pow2(n);
      ScaledHalves(lo, hi, n);
      BitLenScaled(lo / 2, hi, n - 1);
      assert BitLen(v) == 1 + BitLen(v / 2);
    }
  }

  lemma LenVal(x: Uint128)
    ensures x.Len() == BitLen(x.Val())
  {
    if x.hi != 0 {
      assert Pow2(64) == TWO64 by { Pow2Widths(); }
      hide BitLen, Pow2;
      BitLenScaled(x.lo, x.hi, 64);
    }
  }

  /** Folding the cross products into the high word, every addition wrapping. */
  lemma FoldedWord(h: nat, a: int, b: int)
    ensures Wrap64(h + Wrap64(Wrap64(a) + Wrap64(b))) == (h + a + b) % TWO64
  {
  }

  lemma CrossProducts(a: int, b: int, c: int, d: int)
    ensures (a + b * TWO64) * (c + d * TWO64) == a * c + (a * d + b * c) * TWO64 + b * d * TWO128
  {
    var t := c + d * TWO64;
    assert (a + b * TWO64) * t == a * t + (b * t) * TWO64 by { MulDistributes(a, b * TWO64, t); }
    assert a * t == a * c + (a * d) * TWO64 by { MulDistributes(c, d * TWO64, a); }
    assert b * t == b * c + (b * d) * TWO64 by { MulDistributes(c, d * TWO64, b); }
  }

  lemma ProductOfLanes(x: Uint128, y: Uint128)
    ensures x.Val() * y.Val()
         == x.lo * y.lo + (x.lo * y.hi + x.hi * y.lo) * TWO64 + x.hi * y.hi * TWO128
  {
    CrossProducts(x.lo, x.hi, y.lo, y.hi);
  }

  lemma MulLanes(x: Uint128, y: Uint128, p: nat, a: int, b: int)
    requires p == x.lo * y.lo && a == x.lo * y.hi && b == x.hi * y.lo
    ensures x.Mul(y).Val() == p % TWO64 + Wrap64(p / TWO64 + Wrap64(Wrap64(a) + Wrap64(b))) * TWO64
  {
  }

  lemma MulWords(p: nat, a: int, b: int, c: int, product: int, v: int)
    requires product == p + (a + b) * TWO64 + c * TWO128
    requires v == p % TWO64 + (p / TWO64 + a + b) % TWO64 * TWO64
    ensures v == product % TWO128
  {
  }

  lemma MulVal(x: Uint128, y: Uint128)
    ensures x.Mul(y).Val() == x.Val() * y.Val() % TWO128
  {
    hide Uint128.Mul, Uint128.Val;
    ProductBound(x.lo, y.lo);
    var p: nat, a, b := x.lo * y.lo, x.lo * y.hi, x.hi * y.lo;
    ProductOfLanes(x, y);
    MulLanes(x, y, p, a, b);
    FoldedWord(p / TWO64, a, b);
    MulWords(p, a, b, x.hi * y.hi, x.Val() * y.Val(), x.Mul(y).Val());
  }

  // ---- shifts ----

  lemma {:induction false} OrCommutes(x: nat, y: nat)
    ensures BitOr(x, y) == BitOr(y, x)
    decreases x + y
  {
    if x > 0 && y > 0 {
      OrCommutes(x / 2, y / 2);
    }
  }

  lemma ScaledDivision(w: uint64, m: nat, p: nat)
    requires m > 0 && p > 0 && m * p == TWO64
    ensures w * p == w / m * TWO64 + w % m * p
    ensures w / m < p
  {
    var q, r := w / m, w % m;
    assert w == q * m + r;
    MulDistributes(q * m, r, p);
    MulAssociates(q, m, p);
    if q >= p {
      MulMonotone(p, q, m);
      assert false;
    }
  }

  /** A word shifted up and out: what leaves the top and what stays. */
  lemma ShiftParts(w: uint64, n: nat)
    requires n <= 64
    ensures w * Pow2(n) == Shr64(w, 64 - n) * TWO64 + Shl64(w, n)
    ensures Shr64(w, 64 - n) < Pow2(n)
    ensures Shl64(w, n) == (w % Pow2(64 - n)) * Pow2(n)
  {
    var m, p := Pow2(64 - n), Pow2(n);
    assert m * p == TWO64 by {
      Pow2Widths();
      Pow2Add(64 - n, n);
    }
    ShrIsDiv(w, 64 - n);
    ShlKeepsLow(w, n);
    ScaledDivision(w, m, p);
  }

  lemma LshLanes(x: Uint128, n: nat)
    requires 0 < n < 64
    ensures x.Lsh(n).lo == Shl64(x.lo, n)
    ensures x.Lsh(n).hi == Shl64(x.hi, n) + Shr64(x.lo, 64 - n)
  {
    hide BitOr, Shr, Shl64, Pow2;
    ShiftParts(x.lo, n);
    ShiftParts(x.hi, n);
    var c := Shr64(x.lo, 64 - n);
    OrIsSum(c, x.hi % Pow2(64 - n), n);
    OrCommutes(c, Shl64(x.hi, n));
  }

  lemma LanesScaled(lo: int, hi: int, p: int)
    ensures (lo + hi * TWO64) * p == lo * p + (hi * p) * TWO64
  {
    MulDistributes(lo, hi * TWO64, p);
  }

  lemma LshWithinWord(x: Uint128, n: nat)
    requires 0 < n < 64
    ensures x.Lsh(n).Val() == x.Val() * Pow2(n) % TWO128
  {
    hide Uint128.Lsh, Shr, Shl64, Pow2;
    LshLanes(x, n);
    ShiftParts(x.lo, n);
    ShiftParts(x.hi, n);
    LanesScaled(x.lo, x.hi, Pow2(n));
    DivModUnique(x.Val() * Pow2(n), TWO128, Shr64(x.hi, 64 - n), x.Lsh(n).Val());
  }

  lemma LshAcrossWords(x: Uint128, k: nat)
    requires k < 64
    ensures x.Lsh(k + 64).Val() == x.Val() * Pow2(k + 64) % TWO128
  {
    hide Shr, Shl64, Pow2;
    ShiftParts(x.lo, k);
    assert Pow2(k + 64) == Pow2(k) * TWO64 by { Pow2Add(k, 64); Pow2Widths(); }
    MulAssociates(x.Val(), Pow2(k), TWO64);
    LanesScaled(x.lo, x.hi, Pow2(k));
    DivModUnique(x.Val() * Pow2(k + 64), TWO128, Shr64(x.lo, 64 - k) + x.hi * Pow2(k), x.Lsh(k + 64).Val());
  }

  lemma Pow2One()
    ensures Pow2(0) == 1 && Pow2(1) == 2
  {
  }

  lemma LshVal(x: Uint128, n: nat)
    ensures x.Lsh(n).Val() == x.Val() * Pow2(n) % TWO128
  {
    if n == 0 {
      Pow2One();
    } else if n < 64 {
      LshWithinWord(x, n);
    } else if n < 128 {
      LshAcrossWords(x, n - 64);
    } else {
      hide Pow2;
      var k := n - 128;
      assert Pow2(n) == Pow2(k) * TWO128 by { Pow2Add(k, 128); Pow2Widths(); }
      MulAssociates(x.Val(), Pow2(k), TWO128);
      DivModUnique(x.Val() * Pow2(n), TWO128, x.Val() * Pow2(k), 0);
    }
  }

  lemma WordFactors(n: nat)
    requires n <= 64
    ensures Pow2(64 - n) * Pow2(n) == TWO64
  {
    Pow2Widths();
    Pow2Add(64 - n, n);
  }

  lemma RshLanes(x: Uint128, n: nat)
    requires 0 < n < 64
    ensures x.Rsh(n).lo == x.lo / Pow2(n) + x.hi % Pow2(n) * Pow2(64 - n)
    ensures x.Rsh(n).hi == x.hi / Pow2(n)
  {
    hide BitOr, Shr, Shl64, Pow2;
    WordFactors(n);
    WordFactors(64 - n);
    ShrIsDiv(x.lo, n);
    ShrIsDiv(x.hi, n);
    ShiftParts(x.hi, 64 - n);
    ScaledDivision(x.lo, Pow2(n), Pow2(64 - n));
    OrIsSum(x.lo / Pow2(n), x.hi % Pow2(n), 64 - n);
  }

  lemma RshAlgebra(lo: uint64, hi: uint64, p: nat, m: nat)
    requires p > 0 && m * p == TWO64
    ensures (lo + hi * TWO64) / p == lo / p + hi % p * m + hi / p * TWO64
  {
    var q, r, a, b := hi / p, hi % p, lo / p, lo % p;
    var rest := r * m + q * TWO64;
    assert hi * TWO64 == rest * p by {
      assert hi == q * p + r;
      MulAssociates(hi, m, p);
      MulDistributes(r * m, q * TWO64, p);
      MulAssociates(r, m, p);
      assert q * TWO64 * p == (q * p) * TWO64;
    }
    MulDistributes(a, rest, p);
    DivModUnique(lo + hi * TWO64, p, a + rest, b);
  }

  lemma RshWithinWord(x: Uint128, n: nat)
    requires 0 < n < 64
    ensures x.Rsh(n).Val() == x.Val() / Pow2(n)
  {
    hide Uint128.Rsh, Pow2;
    WordFactors(n);
    RshLanes(x, n);
    RshAlgebra(x.lo, x.hi, Pow2(n), Pow2(64 - n));
  }

  lemma RshVal(x: Uint128, n: nat)
    ensures x.Rsh(n).Val() == x.Val() / Pow2(n)
  {
    hide BitOr, Shr, Shl64, Pow2;
    if n == 0 {
      Pow2One();
    } else if n < 64 {
      RshWithinWord(x, n);
    } else if n < 128 {
      ShrIsDiv(x.hi, n - 64);
      Pow2Widths();
      Pow2Add(64, n - 64);
      DivDiv(x.Val(), TWO64, Pow2(n - 64));
      DivModUnique(x.Val(), TWO64, x.hi, x.lo);
    } else {
      Pow2Monotone(128, n);
      Pow2Widths();
      DivModUnique(x.Val(), Pow2(n), 0, x.Val());
    }
  }

  lemma OrZero()
    ensures BitOr(0, 0) == 0
  {
  }

  lemma OrStep(x: nat, y: nat)
    ensures BitOr(x, y) == (if x % 2 == 1 || y % 2 == 1 then 1 else 0) + 2 * BitOr(x / 2, y / 2)
  {
  }

  lemma {:induction false} OrSplits(a: nat, b: nat, c: nat, d: nat, n: nat)
    requires a < Pow2(n) && c < Pow2(n)
    ensures BitOr(a + b * Pow2(n), c + d * Pow2(n)) == BitOr(a, c) + BitOr(b, d) * Pow2(n)
    decreases n
  {
    hide BitOr;
    if n == 0 {
      OrZero();
    } else {
      ScaledHalves(a, b, n);
      ScaledHalves(c, d, n);
      OrSplits(a / 2, b, c / 2, d, n - 1);
      OrStep(a + b * Pow2(n), c + d * Pow2(n));
      OrStep(a, c);
      MulAssociates(BitOr(b, d), 2, Pow2(n - 1));
      MulAssociates(2, BitOr(b, d), Pow2(n - 1));
    }
  }

  /** The bitwise or of the lanes is the bitwise or of the numbers. */
  lemma OrVal(x: Uint128, y: Uint128)
    ensures x.Or(y).Val() == BitOr(x.Val(), y.Val())
  {
    hide BitOr;
    Pow2Widths();
    OrSplits(x.lo, x.hi, y.lo, y.hi, 64);
  }

  // ---- long division ----

  lemma OneWordQuotient(hi: uint64, lo: uint64, y: uint64, q: nat, r: nat)
    requires hi < y && hi * TWO64 + lo == q * y + r
    ensures q < TWO64
  {
    if q >= TWO64 {
      MulMonotone(TWO64, q, y);
      MulMonotone(hi + 1, y, TWO64);
      assert false;
    }
  }

  /** bits.Div64, for a quotient that fits one word. */
  function Div64(hi: uint64, lo: uint64, y: uint64): (uint64, uint64)
    requires hi < y
  {
    var q, r := (hi * TWO64 + lo) / y, (hi * TWO64 + lo) % y;
    OneWordQuotient(hi, lo, y, q, r);
    (q, r)
  }

  /** x == q * y + r with 0 <= r < y. */
  ghost predicate Divides(x: nat, y: nat, q: nat, r: nat) {
    x == q * y + r && r < y
  }

  lemma WordQuotient(x: nat, y: nat)
    requires y > 0
    ensures Divides(x, y, x / y, x % y) && x / y <= x
  {
    if x / y > x {
      MulMonotone(x + 1, x / y, y);
      MulMonotone(1, y, x + 1);
      assert false;
    }
  }

  /** x / y and x % y on 64-bit words. */
  function DivMod64(x: uint64, y: uint64): (uint64, uint64)
    requires y != 0
  {
    WordQuotient(x, y);
    (x / y, x % y)
  }

  lemma WordByWord(x: uint64, y: uint64)
    requires y != 0
    ensures var (q, r) := DivMod64(x, y); Divides(x, y, q, r)
  {
  }

  lemma OneLane(x: Uint128)
    ensures x.hi == 0 ==> x.Val() == x.lo
    ensures x.IsZero() <==> x.Val() == 0
  {
  }

  lemma TwoLanesByOne(x: Uint128, y: uint64)
    requires x.hi < y
    ensures var (q, r) := Div64(x.hi, x.lo, y); Divides(x.Val(), y, q, r)
  {
    WordQuotient(x.Val(), y);
  }

  lemma NothingDivided(y: Uint128)
    requires y.Val() != 0
    ensures Divides(0, y.Val(), 0, Uint128(0, 0).Val())
    ensures Uint128(0, 0).Val() == 0
  {
  }

  lemma WholeQuotient(v: nat, partial: nat)
    ensures Shr(v, 0) == v && partial * Pow2(0) == partial
  {
  }

  lemma AlreadyReduced(w: nat, y: Uint128, partial: nat, r: Uint128)
    requires w == partial * y.Val() + r.Val() && r.Cmp(y) < 0
    ensures Divides(w, y.Val(), partial, r.Val())
  {
  }

  /** A number is below two to the power of its length: shifted that far it is zero. */
  lemma NoBitsLeft(x: Uint128)
    ensures x.Len() <= 128 && Shr(x.Val(), x.Len()) == 0
  {
    LenVal(x);
    Pow2Widths();
    BitLenLeast(x.Val(), 128);
    BitLenLeast(x.Val(), x.Len());
    ShrIsDiv(x.Val(), x.Len());
    DivModUnique(x.Val(), Pow2(x.Len()), 0, x.Val());
  }

  lemma {:induction false} ShrNext(v: nat, i: nat)
    ensures Shr(v, i + 1) == Shr(v, i) / 2
    decreases i
  {
    if i > 0 {
      ShrNext(v / 2, i - 1);
    }
  }

  lemma DoubledFits(r: Uint128, w: nat)
    requires w < TWO128 && r.Val() <= w / 2
    ensures r.Lsh(1).Val() == 2 * r.Val()
  {
    hide Uint128.Lsh, Uint128.Val;
    LshVal(r, 1);
    Pow2One();
    DivModUnique(2 * r.Val(), TWO128, 0, 2 * r.Val());
  }

  lemma LowLane(x: Uint128)
    ensures x.lo % 2 == x.Val() % 2
  {
  }

  lemma LowBit(x: Uint128, i: nat)
    ensures And64(x.Rsh(i).lo, 1) == Shr(x.Val(), i) % 2
  {
    Pow2One();
    hide Uint128.Rsh, Uint128.Val, BitAnd, Shr, Pow2;
    RshVal(x, i);
    ShrIsDiv(x.Val(), i);
    AndMask(x.Rsh(i).lo, 1);
    LowLane(x.Rsh(i));
  }

  lemma LowOr(lo: uint64, bit: nat)
    requires lo % 2 == 0 && bit < 2
    ensures Or64(lo, bit) == lo + bit
  {
    Pow2One();
    hide BitOr, Pow2;
    OrIsSum(bit, lo / 2, 1);
    OrCommutes(bit, lo);
  }

  lemma LowBitSet(s: Uint128, bit: nat)
    requires s.Val() % 2 == 0 && bit < 2
    ensures Uint128(Or64(s.lo, bit), s.hi).Val() == s.Val() + bit
  {
    hide Or64;
    LowLane(s);
    LowOr(s.lo, bit);
  }

  /**
   One more bit of the dividend enters the remainder. The remainder never exceeds the part of the dividend
   consumed so far, so the shift cannot push a bit past the top, even for a divisor above 2^127.
   */
  lemma BitShiftedIn(x: Uint128, y: Uint128, partial: nat, r: Uint128, i: nat)
    requires i < 128 && Divides(Shr(x.Val(), i + 1), y.Val(), partial, r.Val())
    ensures var s := r.Lsh(1);
            var r' := Uint128(Or64(s.lo, And64(x.Rsh(i).lo, 1)), s.hi);
            Shr(x.Val(), i) == 2 * partial * y.Val() + r'.Val() && r'.Val() < 2 * y.Val()
  {
    hide Uint128.Lsh, Uint128.Rsh, Uint128.Val, BitOr, BitAnd, Shr;
    var w := Shr(x.Val(), i);
    ShrNext(x.Val(), i);
    ShrBound(x.Val(), i);
    MulMonotone(0, partial, y.Val());
    DoubledFits(r, w);
    LowBit(x, i);
    LowBitSet(r.Lsh(1), w % 2);
    MulAssociates(2, partial, y.Val());
  }

  lemma BitCleared(quotient: Uint128, partial: nat, i: nat)
    requires partial % 2 == 0 && quotient.Val() == partial / 2 * Pow2(i + 1)
    ensures quotient.Val() == partial * Pow2(i)
  {
  }

  lemma BitFits(i: nat)
    requires i < 128
    ensures Pow2(i) < TWO128
  {
    Pow2Widths();
    hide Pow2;
    Pow2Monotone(i, 127);
  }

  lemma BitPlaced(i: nat)
    requires i < 128
    ensures Uint128(1, 0).Lsh(i).Val() == Pow2(i)
  {
    var one := Uint128(1, 0);
    assert one.Val() == 1;
    hide Uint128.Lsh, Uint128.Val, Pow2, BitOr, Shr, Shl64;
    BitFits(i);
    LshVal(one, i);
    DivModUnique(Pow2(i), TWO128, 0, Pow2(i));
  }

  lemma BitSet(quotient: Uint128, partial: nat, i: nat)
    requires i < 128 && partial % 2 == 0 && quotient.Val() == partial * Pow2(i)
    ensures quotient.Or(Uint128(1, 0).Lsh(i)).Val() == (partial + 1) * Pow2(i)
  {
    hide Uint128.Lsh, Uint128.Or, Uint128.Val, BitOr, Pow2;
    Pow2Doubles(i);
    BitPlaced(i);
    OrVal(quotient, Uint128(1, 0).Lsh(i));
    MulAssociates(partial / 2, 2, Pow2(i));
    OrIsSum(Pow2(i), partial / 2, i + 1);
    OrCommutes(Pow2(i), quotient.Val());
    MulDistributes(partial, 1, Pow2(i));
  }

  lemma Reduced(w: nat, y: Uint128, partial: nat, r: Uint128)
    requires w == partial * y.Val() + r.Val() && r.Val() < 2 * y.Val() && r.Cmp(y) >= 0
    ensures Divides(w, y.Val(), partial + 1, r.Sub(y).Val())
  {
    CmpVal(r, y);
    SubVal(r, y);
    hide Uint128.Val, Uint128.Sub, Uint128.Cmp;
    DivModUnique(r.Val() - y.Val(), TWO128, 0, r.Val() - y.Val());
    MulDistributes(partial, 1, y.Val());
  }

  /** Shift and subtract, one dividend bit a round. */
  method LongDivision(x: Uint128, y: Uint128) returns (quotient: Uint128, remainder: Uint128)
    requires y.Val() != 0
    ensures Divides(x.Val(), y.Val(), quotient.Val(), remainder.Val())
  {
    hide Uint128.Lsh, Uint128.Rsh, Uint128.Sub, Uint128.Or, Uint128.Cmp, BitAnd, BitOr, Shr, Pow2, Divides, Uint128.Val;
    remainder := Uint128(0, 0);
    quotient := Uint128(0, 0);
    ghost var partial := 0;
    NoBitsLeft(x);
    NothingDivided(y);
    for i := x.Len() downto 0
      invariant quotient.Val() == partial * Pow2(i)
      invariant Divides(Shr(x.Val(), i), y.Val(), partial, remainder.Val())
    {
      BitShiftedIn(x, y, partial, remainder, i);
      partial := 2 * partial;
      BitCleared(quotient, partial, i);
      remainder := remainder.Lsh(1);
      remainder := Uint128(Or64(remainder.lo, And64(x.Rsh(i).lo, 1)), remainder.hi);
      if remainder.Cmp(y) >= 0 {
        BitSet(quotient, partial, i);
        Reduced(Shr(x.Val(), i), y, partial, remainder);
        remainder := remainder.Sub(y);
        quotient := quotient.Or(Uint128(1, 0).Lsh(i));
        partial := partial + 1;
      } else {
        AlreadyReduced(Shr(x.Val(), i), y, partial, remainder);
      }
    }
    WholeQuotient(x.Val(), partial);
  }

  method DivMod(x: Uint128, y: Uint128) returns (quotient: Uint128, remainder: Uint128)
    ensures y.Val() != 0 ==> Divides(x.Val(), y.Val(), quotient.Val(), remainder.Val())
  {
    hide Divides, Uint128.Val, Div64, DivMod64;
    OneLane(y);
    if y.IsZero() {
      return Uint128(0, 0), Uint128(0, 0);
    }
    if x.hi == 0 && y.hi == 0 {
      OneLane(x);
      WordByWord(x.lo, y.lo);
      var (q, r) := DivMod64(x.lo, y.lo);
      OneLane(Uint128(q, 0));
      OneLane(Uint128(r, 0));
      return Uint128(q, 0), Uint128(r, 0);
    }
    if y.hi == 0 && x.hi < y.lo {
      TwoLanesByOne(x, y.lo);
      var (q, r) := Div64(x.hi, x.lo, y.lo);
      OneLane(Uint128(q, 0));
      OneLane(Uint128(r, 0));
      return Uint128(q, 0), Uint128(r, 0);
    }
    quotient, remainder := LongDivision(x, y);
  }

  // ---- the signed layer ----

  lemma IsNegativeVal(x: Int128)
    ensures x.IsNegative() <==> x.Val() < 0
  {
    ShrIsDiv(x.hi, 63);
    Pow2Widths();
  }

  /** Reinterpreting the lanes is reducing modulo 2^128, and back. */
  lemma Reinterpreted(x: Int128)
    ensures x.ToUint128().Val() == x.Val() % TWO128
    ensures x.ToUint128().ToInt128() == x
    ensures x.Val() == AsSigned(x.ToUint128().Val())
  {
  }

  lemma SignedLanes(u: Uint128)
    ensures u.ToInt128().Val() == AsSigned(u.Val())
  {
  }

  lemma From64Val(x: int64)
    ensures Int128.From64(x).Val() == x
  {
  }

  lemma SignedCmpVal(x: Int128, y: Int128)
    ensures x.Cmp(y) < 0 <==> x.Val() < y.Val()
    ensures x.Cmp(y) > 0 <==> x.Val() > y.Val()
  {
  }

  function Abs(x: int): nat { if x < 0 then -x else x }

  /** The magnitude of a signed value, as negation of the lanes computes it; 2^127 for the least value. */
  lemma MagnitudeVal(x: Int128)
    ensures (if x.IsNegative() then x.ToUint128().Neg() else x.ToUint128()).Val() == Abs(x.Val())
  {
    IsNegativeVal(x);
    SubVal(Uint128(0, 0), x.ToUint128());
    if x.Val() < 0 {
      DivModUnique(0 - (x.Val() + TWO128), TWO128, -1, 0 - x.Val());
    }
  }

  /** Applying a sign to a magnitude of at most 2^127; the one value that wraps is +2^127. */
  lemma SignApplied(m: Uint128, negative: bool)
    requires m.Val() <= TWO127
    ensures var v := (if negative then m.Neg() else m).ToInt128().Val();
            v == if !negative && m.Val() == TWO127 then -TWO127 else if negative then 0 - m.Val() else m.Val()
  {
    SubVal(Uint128(0, 0), m);
    if m.Val() > 0 {
      DivModUnique(0 - m.Val(), TWO128, -1, TWO128 - m.Val());
    }
    if negative {
      SignedLanes(m.Neg());
    }
    SignedLanes(m);
  }

  /** Truncation toward zero, the remainder taking the dividend's sign. */
  ghost predicate Truncates(x: int, y: int, q: int, r: int) {
    && x == q * y + r
    && Abs(r) < Abs(y)
    && (r < 0 ==> x < 0) && (r > 0 ==> x > 0)
  }

  lemma ProductOfAbs(q: int, y: int)
    ensures Abs(q) * Abs(y) == Abs(q * y)
    ensures q > 0 && y > 0 ==> q * y > 0
    ensures q > 0 && y < 0 ==> q * y < 0
    ensures q < 0 && y > 0 ==> q * y < 0
    ensures q < 0 && y < 0 ==> q * y > 0
  {
  }

  /** Truncating division has one answer: the quotient of the magnitudes with the product of the signs. */
  lemma TruncationIsUnique(x: int, y: int, q: int, r: int)
    requires Truncates(x, y, q, r)
    ensures Abs(q) == Abs(x) / Abs(y) && Abs(r) == Abs(x) % Abs(y)
    ensures q > 0 ==> (x < 0 <==> y < 0)
    ensures q < 0 ==> (x < 0 <==> y > 0)
  {
    var a, b := Abs(q), Abs(y);
    assert a * b == Abs(q * y) by { ProductOfAbs(q, y); }
    if q != 0 {
      MulMonotone(1, a, b);
    }
    DivModUnique(Abs(x), b, a, Abs(r));
  }

  lemma QuotientBounds(x: nat, y: nat, q: nat, r: nat)
    requires Divides(x, y, q, r)
    ensures q <= x && r <= x
    ensures y >= 2 ==> 2 * q <= x
    ensures y == 1 ==> q == x && r == 0
  {
    MulMonotone(1, y, q);
    MulMonotone(0, q, y);
    if y >= 2 {
      MulMonotone(2, y, q);
    }
  }

  lemma SignedProduct(x: int, y: int, q: nat, r: nat)
    requires Abs(x) == q * Abs(y) + r
    ensures x == (if (x < 0) != (y < 0) then 0 - q else q) * y + (if x < 0 then 0 - r else r)
  {
  }

  lemma SignsRestored(x: int128, y: int128, q: Uint128, r: Uint128)
    requires y != 0 && Divides(Abs(x), Abs(y), q.Val(), r.Val())
    ensures var sq := (if (x < 0) != (y < 0) then q.Neg() else q).ToInt128().Val();
            var sr := (if x < 0 then r.Neg() else r).ToInt128().Val();
            if x == -TWO127 && y == -1 then sq == -TWO127 && sr == 0 else Truncates(x, y, sq, sr)
  {
    hide Uint128.Sub, Uint128.Neg, Uint128.Val, Int128.Val, AsSigned;
    QuotientBounds(Abs(x), Abs(y), q.Val(), r.Val());
    SignApplied(q, (x < 0) != (y < 0));
    SignApplied(r, x < 0);
    SignedProduct(x, y, q.Val(), r.Val());
  }

  method SignedDivMod(x: Int128, y: Int128) returns (quotient: Int128, remainder: Int128)
    ensures y.Val() != 0 && !(x.Val() == -TWO127 && y.Val() == -1) ==>
              Truncates(x.Val(), y.Val(), quotient.Val(), remainder.Val())
    ensures x.Val() == -TWO127 && y.Val() == -1 ==> quotient.Val() == -TWO127 && remainder.Val() == 0
  {
    hide Uint128.Sub, Uint128.Neg, Uint128.Val, Int128.Val, Int128.IsNegative, AsSigned;
    var dividendMagnitude := x.ToUint128();
    if x.IsNegative() {
      dividendMagnitude := dividendMagnitude.Neg();
    }
    var divisorMagnitude := y.ToUint128();
    if y.IsNegative() {
      divisorMagnitude := divisorMagnitude.Neg();
    }
    MagnitudeVal(x);
    MagnitudeVal(y);
    IsNegativeVal(x);
    IsNegativeVal(y);
    var unsignedQuotient, unsignedRemainder := DivMod(dividendMagnitude, divisorMagnitude);
    ghost var q, r := unsignedQuotient, unsignedRemainder;
    if x.IsNegative() != y.IsNegative() {
      unsignedQuotient := unsignedQuotient.Neg();
    }
    if x.IsNegative() {
      unsignedRemainder := unsignedRemainder.Neg();
    }
    quotient, remainder := unsignedQuotient.ToInt128(), unsignedRemainder.ToInt128();
    if y.Val() != 0 {
      SignsRestored(x.Val(), y.Val(), q, r);
    }
  }

  lemma Pow2Even(n: nat)
    requires n > 0
    ensures Pow2(n) % 2 == 0
  {
    hide Pow2;
    Pow2Doubles(n - 1);
  }

  lemma OnesScaled(p: nat, m: nat)
    requires p > 0 && m > 0 && p * m == TWO128
    ensures (TWO128 - 1) * m % TWO128 == (p - 1) * m == TWO128 - m
  {
    MulDistributes(TWO128, -1, m);
    MulDistributes(p, -1, m);
    MulMonotone(1, p, m);
    DivModUnique((TWO128 - 1) * m, TWO128, m - 1, TWO128 - m);
  }

  /** The quotient of a pattern with its sign bit set fills the upper half of what is left of the word. */
  lemma HighHalf(u: nat, p: nat, m: nat)
    requires TWO127 <= u < TWO128 && p > 0 && m % 2 == 0 && p * m == TWO128
    ensures m <= 2 * (u / p) && u / p < m
  {
    var q, r, h := u / p, u % p, m / 2;
    assert u == q * p + r && r < p;
    if q >= m {
      MulMonotone(m, q, p);
      assert false;
    }
    if q < h {
      MulMonotone(q + 1, h, p);
      MulDistributes(q, 1, p);
      MulAssociates(p, 2, h);
      assert false;
    }
  }

  lemma FloorOfNegative(u: nat, p: nat, m: nat)
    requires p > 0 && m > 0 && p * m == TWO128
    ensures (u - TWO128) / p == u / p - m
  {
    var q, r := u / p, u % p;
    MulDistributes(q, 0 - m, p);
    DivModUnique(u - TWO128, p, q - m, r);
  }

  lemma SignFilled(x: Int128, n: nat)
    requires 0 < n < 128 && x.Val() < 0
    ensures x.ToUint128().Rsh(n).Or(Uint128(0, 0).Not().Lsh(128 - n)).ToInt128().Val() == x.Val() / Pow2(n)
  {
    hide Uint128.Rsh, Uint128.Lsh, Uint128.Or, BitOr, Pow2;
    var p, m := Pow2(n), Pow2(128 - n);
    assert p * m == TWO128 && m * p == TWO128 by { Pow2Add(n, 128 - n); Pow2Widths(); }
    assert m % 2 == 0 by { Pow2Even(128 - n); }
    var u, ones := x.ToUint128(), Uint128(0, 0).Not();
    assert ones.Val() == TWO128 - 1;
    Reinterpreted(x);
    assert u.Val() == x.Val() + TWO128;
    RshVal(u, n);
    LshVal(ones, 128 - n);
    OnesScaled(p, m);
    OrVal(u.Rsh(n), ones.Lsh(128 - n));
    HighHalf(u.Val(), p, m);
    OrIsSum(u.Val() / p, p - 1, 128 - n);
    SignedLanes(u.Rsh(n).Or(ones.Lsh(128 - n)));
    FloorOfNegative(u.Val(), p, m);
  }

  /** The arithmetic shift is floor division by a power of two, for every count. */
  lemma SignedRshVal(x: Int128, n: nat)
    ensures x.Rsh(n).Val() == x.Val() / Pow2(n)
  {
    hide Uint128.Rsh, Uint128.Lsh, Uint128.Or, Shr64, Pow2;
    IsNegativeVal(x);
    Reinterpreted(x);
    if n >= 128 {
      Pow2Monotone(128, n);
      assert Pow2(128) == TWO128 by { Pow2Widths(); }
      if x.Val() < 0 {
        From64Val(-1);
        DivModUnique(x.Val(), Pow2(n), -1, x.Val() + Pow2(n));
      } else {
        DivModUnique(x.Val(), Pow2(n), 0, x.Val());
      }
    } else {
      RshVal(x.ToUint128(), n);
      SignedLanes(x.ToUint128().Rsh(n));
      if n == 0 {
        Pow2One();
      } else if x.Val() < 0 {
        SignFilled(x, n);
      } else {
        WordQuotient(x.Val(), Pow2(n));
      }
    }
  }

  // ---- lanes on the wire ----

  lemma SignedOfMod(n: int128)
    ensures AsSigned(n % TWO128) == n
  {
  }

  /** The lanes of a number. */
  function UintLanes(n: int): (x: Uint128)
    requires 0 <= n < TWO128
    ensures x.Val() == n
  {
    Uint128(n % TWO64, n / TWO64)
  }

  function IntLanes(n: int128): (x: Int128)
    ensures x.Val() == n
  {
    SignedOfMod(n);
    UintLanes(n % TWO128).ToInt128()
  }

  lemma LanesVal(x: Uint128)
    ensures x.Val() == x.lo + x.hi * TWO64
  {
  }

  lemma StoredLanes(n: int)
    ensures UintLanes(n % TWO128).ToInt128().Val() == AsSigned(n % TWO128)
  {
    SignedLanes(UintLanes(n % TWO128));
  }

  lemma SignedLanesVal(x: Int128)
    ensures x.Val() == AsSigned(x.lo + x.hi * TWO64)
  {
  }

  lemma LanesSplit(offset: Uint128, bits: nat)
    requires bits > 64 && Pow2(64) == TWO64 && offset.Val() < Pow2(bits) == TWO64 * Pow2(bits - 64)
    ensures offset.hi < Pow2(bits - 64)
    ensures ToBits(offset.Val(), bits) == ToBits(offset.lo, 64) + ToBits(offset.hi, bits - 64)
  {
    hide ToBits, Shr, Pow2;
    DivModUnique(offset.Val(), TWO64, offset.hi, offset.lo);
    ToBitsSplit(offset.Val(), 64, bits - 64);
    ShrIsDiv(offset.Val(), 64);
    ToBitsMod(offset.Val(), 64);
  }

  /** Splitting an offset into its lanes is splitting its bits at 64. */
  lemma GroupsSplit(offset: Uint128, bits: nat)
    requires bits <= 128 && offset.Val() < Pow2(bits)
    ensures bits <= 64 ==> offset.lo == offset.Val() < Pow2(bits)
    ensures bits > 64 ==> && offset.lo < Pow2(64) && offset.hi < Pow2(bits - 64)
                          && ToBits(offset.Val(), bits) == ToBits(offset.lo, 64) + ToBits(offset.hi, bits - 64)
  {
    hide ToBits, Shr;
    assert Pow2(64) == TWO64 by { Pow2Widths(); }
    hide Pow2;
    if bits <= 64 {
      Pow2Monotone(bits, 64);
    } else {
      Pow2Add(64, bits - 64);
      LanesSplit(offset, bits);
    }
  }

  lemma RawLanes(value: Uint128)
    ensures value.Val() < Pow2(128) && value.lo < Pow2(64) && value.hi < Pow2(64)
    ensures ToBits(value.Val(), 128) == ToBits(value.lo, 64) + ToBits(value.hi, 64)
  {
    Pow2Widths();
    hide Pow2, ToBits, Uint128.Val;
    GroupsSplit(value, 128);
  }

  /** Two loads, low half first, are one load of the whole offset. */
  lemma GroupsJoin(bits: seq<bool>, pos: nat, n: nat)
    requires 64 < n <= 128 && pos + n <= |bits|
    ensures FromBits(bits[pos..pos + n])
         == FromBits(bits[pos..pos + 64]) + TWO64 * FromBits(bits[pos + 64..pos + 64 + (n - 64)])
  {
    assert Pow2(64) == TWO64 by { Pow2Widths(); }
    hide FromBits, Pow2;
    assert bits[pos..pos + n] == bits[pos..pos + 64] + bits[pos + 64..pos + 64 + (n - 64)];
    FromBitsConcat(bits[pos..pos + 64], bits[pos + 64..pos + 64 + (n - 64)]);
  }
}
