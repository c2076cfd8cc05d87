/** CopyString: the longest prefix of a text that fits a string buffer. */
module CopyStrings {
  import opened Bits
  import opened Words
  import opened Utf8
  import opened Wire

  /** The bytes before the first NUL, all of them when there is none. */
  function BeforeNul(s: seq<byte>): (t: seq<byte>)
    ensures t <= s && !HasNul(t)
    ensures |t| < |s| ==> s[|t|] == 0
  {
    if s == [] || s[0] == 0 then [] else
      var rest := BeforeNul(s[1..]);
      assert forall i :: 0 <= i < |rest| ==> rest[i] != 0;
      [s[0]] + rest
  }

  /** 10xxxxxx. */
  predicate Continuation(b: byte) {
    b / 0x40 == 2
  }

  /** The test of a byte: its top two bits, masked. */
  predicate ContinuationBits(b: byte) {
    BitAnd(b, 0xC0) == 0x80
  }

  lemma ContinuationMask(b: byte)
    ensures ContinuationBits(b) <==> Continuation(b)
  {
    assert Pow2(2) == 4 && Pow2(6) == 0x40;
    hide BitAnd, Pow2, Shr;
    AndShifted(b, 3, 6);
    AndMask(Shr(b, 6), 2);
    ShrIsDiv(b, 6);
  }

  /** A place where a character of s begins, or its end. */
  predicate Boundary(s: seq<byte>, n: nat) {
    n == |s| || (n < |s| && !Continuation(s[n]))
  }

  /** p is a prefix of the text before the first NUL, short enough, and not ending inside a character. */
  ghost predicate FitsBuffer(source: seq<byte>, destSize: nat, p: seq<byte>) {
    var text := BeforeNul(source);
    p <= text && |p| <= destSize - 1 && (p == [] || Boundary(text, |p|))
  }

  lemma WholeText(source: seq<byte>, destSize: nat)
    requires |BeforeNul(source)| <= destSize - 1
    ensures FitsBuffer(source, destSize, BeforeNul(source))
    ensures forall p :: FitsBuffer(source, destSize, p) ==> p <= BeforeNul(source)
  {
  }

  lemma CutText(source: seq<byte>, destSize: nat, n: nat)
    requires n <= destSize - 1 < |BeforeNul(source)|
    requires n == 0 || Boundary(BeforeNul(source), n)
    requires forall k :: n < k <= destSize - 1 ==> !Boundary(BeforeNul(source), k)
    ensures FitsBuffer(source, destSize, BeforeNul(source)[..n])
    ensures forall p :: FitsBuffer(source, destSize, p) ==> p <= BeforeNul(source)[..n]
  {
  }

  method CopyString(source: seq<byte>, destSize: nat) returns (prefix: seq<byte>)
    requires destSize >= 1
    ensures FitsBuffer(source, destSize, prefix)
    ensures forall p :: FitsBuffer(source, destSize, p) ==> p <= prefix
  {
    var text := BeforeNul(source);
    if |text| <= destSize - 1 {
      WholeText(source, destSize);
      return text;
    }
    var n := destSize - 1;
    while n > 0 && ContinuationBits(text[n])
      invariant n <= destSize - 1
      invariant forall k :: n < k <= destSize - 1 ==> !Boundary(text, k)
    {
      ContinuationMask(text[n]);
      n := n - 1;
    }
    ContinuationMask(text[n]);
    CutText(source, destSize, n);
    return text[..n];
  }

  // ---- on well-formed text ----

  /** The first byte of a character is no continuation byte, and every other byte of it is. */
  lemma CharShape(s: seq<byte>)
    requires CharLen(s) > 0
    ensures !Continuation(s[0])
    ensures forall i :: 0 < i < CharLen(s) ==> Continuation(s[i])
  {
  }

  /** A character is recognized by its own bytes alone. */
  lemma CharLocal(s: seq<byte>, n: nat)
    requires CharLen(s) <= n <= |s| && CharLen(s) > 0
    ensures CharLen(s[..n]) == CharLen(s)
  {
  }

  /** Cutting well-formed text at a character boundary leaves well-formed text. */
  lemma {:induction false} PrefixWellFormed(s: seq<byte>, n: nat)
    requires WellFormed(s) && n <= |s| && Boundary(s, n)
    ensures WellFormed(s[..n])
    decreases s
  {
    if n > 0 {
      var c := CharLen(s);
      CharShape(s);
      assert n >= c;
      CharLocal(s, n);
      PrefixWellFormed(s[c..], n - c);
      assert s[..n][c..] == s[c..][..n - c];
    }
  }

  /** Text before a NUL in well-formed text is well formed: a NUL is a character of its own. */
  lemma BeforeNulWellFormed(s: seq<byte>)
    requires WellFormed(s)
    ensures WellFormed(BeforeNul(s))
  {
    var t := BeforeNul(s);
    PrefixWellFormed(s, |t|);
    assert t == s[..|t|];
  }

  lemma PrefixSameChar(s: seq<byte>, n: nat)
    requires n <= |s| && CharLen(s[..n]) > 0
    ensures CharLen(s) == CharLen(s[..n])
  {
  }

  /** A prefix of well-formed text that is well formed itself ends at a character boundary. */
  lemma {:induction false} WellFormedEnds(s: seq<byte>, n: nat)
    requires WellFormed(s) && n <= |s| && WellFormed(s[..n])
    ensures Boundary(s, n)
    decreases s
  {
    if n == 0 {
      if s != [] {
        CharShape(s);
      }
    } else {
      var c := CharLen(s[..n]);
      PrefixSameChar(s, n);
      assert s[..n][c..] == s[c..][..n - c];
      WellFormedEnds(s[c..], n - c);
    }
  }

  /** A NUL-free prefix ends before the first NUL. */
  lemma {:induction false} NulFreePrefix(s: seq<byte>, p: seq<byte>)
    requires p <= s && !HasNul(p)
    ensures p <= BeforeNul(s)
    decreases s
  {
  }

  /**
   On well-formed text CopyString returns the longest well-formed, NUL-free prefix that fits, and a write stream
   with the same buffer size takes it.
   */
  method CopyWellFormed(source: seq<byte>, destSize: int64) returns (prefix: seq<byte>)
    requires WellFormed(source) && 1 <= destSize <= INT32_MAX
    ensures prefix <= source && Legal(Text(destSize), Blob(prefix))
    ensures forall p :: p <= source && Legal(Text(destSize), Blob(p)) ==> p <= prefix
  {
    prefix := CopyString(source, destSize);
    BeforeNulWellFormed(source);
    var text := BeforeNul(source);
    if prefix != [] {
      PrefixWellFormed(text, |prefix|);
    }
    assert prefix == text[..|prefix|];
    forall p | p <= source && Legal(Text(destSize), Blob(p)) ensures p <= prefix {
      NulFreePrefix(source, p);
      assert p == text[..|p|];
      WellFormedEnds(text, |p|);
      assert FitsBuffer(source, destSize, p);
    }
  }
}
