/** Well-formed UTF-8 (section 4 of RFC 3629) as a predicate on byte strings. */
module Utf8 {
  import opened Bits

  predicate Tail(b: byte) {
    0x80 <= b <= 0xBF
  }

  predicate ThreeByteLead(a: byte, b: byte) {
    || (a == 0xE0 && 0xA0 <= b <= 0xBF)
    || (0xE1 <= a <= 0xEC && Tail(b))
    || (a == 0xED && 0x80 <= b <= 0x9F)
    || (0xEE <= a <= 0xEF && Tail(b))
  }

  predicate FourByteLead(a: byte, b: byte) {
    || (a == 0xF0 && 0x90 <= b <= 0xBF)
    || (0xF1 <= a <= 0xF3 && Tail(b))
    || (a == 0xF4 && 0x80 <= b <= 0x8F)
  }

  /** Length of the well-formed character s begins with, 0 when it begins with none. */
  function CharLen(s: seq<byte>): (n: nat)
    ensures n <= 4 && n <= |s|
  {
    if |s| >= 1 && s[0] <= 0x7F then 1
    else if |s| >= 2 && 0xC2 <= s[0] <= 0xDF && Tail(s[1]) then 2
    else if |s| >= 3 && ThreeByteLead(s[0], s[1]) && Tail(s[2]) then 3
    else if |s| >= 4 && FourByteLead(s[0], s[1]) && Tail(s[2]) && Tail(s[3]) then 4
    else 0
  }

  predicate WellFormed(s: seq<byte>) {
    s == [] || (CharLen(s) > 0 && WellFormed(s[CharLen(s)..]))
  }

  // ---- Unicode ----

  /** A Unicode scalar value. */
  type scalar = c: nat | c <= 0x10FFFF && !(0xD800 <= c <= 0xDFFF)

  /** Its shortest form, computed from the value: the lead carries the high bits, each byte behind it six more. */
  function EncodeScalar(c: scalar): (s: seq<byte>)
    ensures 1 <= |s| <= 4
  {
    if c < 0x80 then [c]
    else if c < 0x800 then [0xC0 + c / 0x40, 0x80 + c % 0x40]
    else if c < 0x1_0000 then [0xE0 + c / 0x1000, 0x80 + c / 0x40 % 0x40, 0x80 + c % 0x40]
    else [0xF0 + c / 0x4_0000, 0x80 + c / 0x1000 % 0x40, 0x80 + c / 0x40 % 0x40, 0x80 + c % 0x40]
  }

  function EncodeScalars(cs: seq<scalar>): seq<byte> {
    if cs == [] then [] else EncodeScalar(cs[0]) + EncodeScalars(cs[1..])
  }

  /** The number whose base-64 digits are given. */
  function Sextets(h: int, m: int, k: int, l: int): int {
    h * 0x4_0000 + m * 0x1000 + k * 0x40 + l
  }

  lemma SextetsApart(h: nat, m: nat, k: nat, l: nat)
    requires m < 0x40 && k < 0x40 && l < 0x40
    ensures var c := Sextets(h, m, k, l);
            && c / 0x4_0000 == h && c / 0x1000 == h * 0x40 + m && c / 0x1000 % 0x40 == m
            && c / 0x40 % 0x40 == k && c % 0x40 == l
  {
    var c := Sextets(h, m, k, l);
    DivModUnique(c, 0x4_0000, h, m * 0x1000 + k * 0x40 + l);
    DivModUnique(c, 0x1000, h * 0x40 + m, k * 0x40 + l);
    DivModUnique(h * 0x40 + m, 0x40, h, m);
    DivModUnique(c, 0x40, h * 0x1000 + m * 0x40 + k, l);
    DivModUnique(h * 0x1000 + m * 0x40 + k, 0x40, h * 0x40 + m, k);
  }

  lemma SextetsOf(c: nat)
    ensures c == Sextets(c / 0x4_0000, c / 0x1000 % 0x40, c / 0x40 % 0x40, c % 0x40)
  {
    var a := c / 0x40;
    DivDiv(c, 0x40, 0x40);
    DivDiv(c, 0x40, 0x1000);
    assert a == 0x40 * (a / 0x40) + a % 0x40;
    DivDiv(a, 0x40, 0x40);
  }

  /** A byte string is one row of the table. */
  predicate IsRow(s: seq<byte>) {
    match |s|
    case 1 => s[0] <= 0x7F
    case 2 => 0xC2 <= s[0] <= 0xDF && Tail(s[1])
    case 3 => ThreeByteLead(s[0], s[1]) && Tail(s[2])
    case _ => |s| == 4 && FourByteLead(s[0], s[1]) && Tail(s[2]) && Tail(s[3])
  }

  /** The scalar value a row of the table stands for. */
  function DecodeRow(s: seq<byte>): (c: scalar)
    requires IsRow(s)
  {
    match |s|
    case 1 => s[0]
    case 2 => Sextets(0, 0, s[0] as int - 0xC0, s[1] as int - 0x80)
    case 3 => Sextets(0, s[0] as int - 0xE0, s[1] as int - 0x80, s[2] as int - 0x80)
    case _ => Sextets(s[0] as int - 0xF0, s[1] as int - 0x80, s[2] as int - 0x80, s[3] as int - 0x80)
  }

  lemma TwoSextets(k: nat, l: nat)
    requires 2 <= k < 0x20 && l < 0x40
    ensures EncodeScalar(Sextets(0, 0, k, l)) == [0xC0 + k, 0x80 + l]
  {
    SextetsApart(0, 0, k, l);
  }

  lemma ThreeSextets(m: nat, k: nat, l: nat)
    requires m < 0x10 && k < 0x40 && l < 0x40 && (m == 0 ==> k >= 0x20) && (m == 0xD ==> k < 0x20)
    ensures EncodeScalar(Sextets(0, m, k, l)) == [0xE0 + m, 0x80 + k, 0x80 + l]
  {
    SextetsApart(0, m, k, l);
  }

  lemma FourSextets(h: nat, m: nat, k: nat, l: nat)
    requires h <= 4 && m < 0x40 && k < 0x40 && l < 0x40 && (h == 0 ==> m >= 0x10) && (h == 4 ==> m < 0x10)
    ensures EncodeScalar(Sextets(h, m, k, l)) == [0xF0 + h, 0x80 + m, 0x80 + k, 0x80 + l]
  {
    SextetsApart(h, m, k, l);
  }

  lemma OneByte(c: nat)
    requires c < 0x80
    ensures EncodeScalar(c) == [c]
  {
  }

  /** A row of the table is the shortest form of its scalar value. */
  lemma RowIsScalar(s: seq<byte>)
    requires IsRow(s)
    ensures EncodeScalar(DecodeRow(s)) == s
  {
    hide EncodeScalar, Sextets;
    match |s|
    case 1 => OneByte(s[0]);
    case 2 => TwoSextets(s[0] - 0xC0, s[1] - 0x80);
    case 3 => ThreeSextets(s[0] - 0xE0, s[1] - 0x80, s[2] - 0x80);
    case _ => FourSextets(s[0] - 0xF0, s[1] - 0x80, s[2] - 0x80, s[3] - 0x80);
  }

  /** The base-64 digits of a scalar value: which of them are there, and what the first of them can be. */
  lemma ScalarSextets(c: scalar)
    ensures var h, m, k, l := c / 0x4_0000, c / 0x1000 % 0x40, c / 0x40 % 0x40, c % 0x40;
            && c == Sextets(h, m, k, l)
            && (0x80 <= c < 0x800 ==> h == 0 && m == 0 && 2 <= k < 0x20)
            && (0x800 <= c < 0x1_0000 ==> h == 0 && m < 0x10 && (m == 0 ==> k >= 0x20) && (m == 0xD ==> k < 0x20))
            && (0x1_0000 <= c ==> h <= 4 && (h == 0 ==> m >= 0x10) && (h == 4 ==> m < 0x10))
  {
    SextetsOf(c);
  }

  /** The shortest form of a scalar value is a row of the table, and stands for it. */
  lemma ScalarOfRow(c: scalar)
    ensures IsRow(EncodeScalar(c)) && DecodeRow(EncodeScalar(c)) == c
  {
    hide EncodeScalar, Sextets;
    var h, m, k, l := c / 0x4_0000, c / 0x1000 % 0x40, c / 0x40 % 0x40, c % 0x40;
    ScalarSextets(c);
    if c < 0x80 {
      OneByte(c);
    } else if c < 0x800 {
      TwoSextets(k, l);
    } else if c < 0x1_0000 {
      ThreeSextets(m, k, l);
    } else {
      FourSextets(h, m, k, l);
    }
  }

  lemma CharIsRow(s: seq<byte>)
    requires CharLen(s) > 0
    ensures IsRow(s[..CharLen(s)])
  {
  }

  lemma RowIsChar(s: seq<byte>, rest: seq<byte>)
    requires IsRow(s)
    ensures CharLen(s + rest) == |s| > 0
    ensures (s + rest)[..|s|] == s && (s + rest)[|s|..] == rest
  {
  }

  lemma {:induction false} ScalarsWellFormed(cs: seq<scalar>)
    ensures WellFormed(EncodeScalars(cs))
  {
    hide EncodeScalar, CharLen, IsRow, DecodeRow;
    if cs != [] {
      ScalarOfRow(cs[0]);
      RowIsChar(EncodeScalar(cs[0]), EncodeScalars(cs[1..]));
      ScalarsWellFormed(cs[1..]);
    }
  }

  function DecodeText(s: seq<byte>): (cs: seq<scalar>)
    requires WellFormed(s)
  {
    if s == [] then [] else
      CharIsRow(s);
      [DecodeRow(s[..CharLen(s)])] + DecodeText(s[CharLen(s)..])
  }

  lemma {:induction false} WellFormedScalars(s: seq<byte>)
    requires WellFormed(s)
    ensures EncodeScalars(DecodeText(s)) == s
  {
    hide EncodeScalar, CharLen, IsRow, DecodeRow;
    if s != [] {
      CharIsRow(s);
      var first, rest := s[..CharLen(s)], s[CharLen(s)..];
      RowIsScalar(first);
      WellFormedScalars(rest);
      assert s == first + rest;
    }
  }

  /** The text of some sequence of scalar values. */
  ghost predicate IsUnicode(s: seq<byte>) {
    exists cs :: EncodeScalars(cs) == s
  }

  /** The well-formed texts are exactly the shortest forms of the sequences of scalar values. */
  lemma WellFormedIsUnicode(s: seq<byte>)
    ensures WellFormed(s) <==> IsUnicode(s)
  {
    hide WellFormed, EncodeScalars, DecodeText;
    if WellFormed(s) {
      WellFormedScalars(s);
    }
    forall cs | EncodeScalars(cs) == s ensures WellFormed(s) {
      ScalarsWellFormed(cs);
    }
  }

  /** Every sequence of scalar values is the decoding of its own text, so no two share one. */
  lemma {:induction false} TextsDiffer(cs: seq<scalar>)
    ensures WellFormed(EncodeScalars(cs)) && DecodeText(EncodeScalars(cs)) == cs
  {
    hide EncodeScalar, CharLen, IsRow, DecodeRow;
    ScalarsWellFormed(cs);
    if cs != [] {
      ScalarOfRow(cs[0]);
      RowIsChar(EncodeScalar(cs[0]), EncodeScalars(cs[1..]));
      TextsDiffer(cs[1..]);
    }
  }

  predicate HasNul(s: seq<byte>) {
    exists i :: 0 <= i < |s| && s[i] == 0
  }
}
