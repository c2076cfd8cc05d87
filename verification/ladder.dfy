/** The int_relative ladder, rung by rung, as the streams climb it. */
module Ladders {
  import opened Bits
  import opened Words
  import opened Wire
  import opened Codec

  /** What follows the flag of rung i. */
  ghost function LadderPayload(difference: nat, current: nat, i: nat): seq<bool>
    requires i < |BUCKETS| && difference >= RungFloor(i)
  {
    if difference <= BUCKETS[i].max then EncodeNumeric(BucketField(i), difference)
    else LadderBits(difference, current, i + 1)
  }

  lemma LadderUnfolds(difference: nat, current: nat, i: nat)
    requires i < |BUCKETS| && difference >= RungFloor(i)
    ensures difference > BUCKETS[i].max ==> difference >= RungFloor(i + 1)
    ensures LadderBits(difference, current, i)
         == [difference <= BUCKETS[i].max] + LadderPayload(difference, current, i)
  {
  }

  function Lesser(a: nat, b: nat): nat { if a < b then a else b }

  function RungFlags(difference: nat, i: nat): seq<bool>
    requires i <= |BUCKETS|
    decreases |BUCKETS| - i
  {
    if i == |BUCKETS| then []
    else if difference <= BUCKETS[i].max then [true]
    else [false] + RungFlags(difference, i + 1)
  }

  /** The flag bits of a difference's encoding, before any payload. */
  function Flags(difference: nat): seq<bool>
    requires difference >= 1
  {
    if difference == 1 then [true] else [false] + RungFlags(difference, 0)
  }

  lemma FlagFalse(difference: nat, i: nat)
    requires i < |BUCKETS| && difference > BUCKETS[i].max
    ensures RungFlags(difference, i) == [false] + RungFlags(difference, i + 1)
  {
  }

  lemma {:induction false} FlagsAt(difference: nat, i: nat)
    requires i <= |BUCKETS| && difference >= RungFloor(i) && difference != 1
    ensures Flags(difference) == seq(i + 1, _ => false) + RungFlags(difference, i)
    decreases i
  {
    hide RungFlags;
    if i > 0 {
      RungsAscend(i - 1);
      FlagsAt(difference, i - 1);
      FlagFalse(difference, i - 1);
      assert seq(i + 1, _ => false) == seq(i, _ => false) + [false];
    } else {
      assert seq(1, _ => false) == [false];
    }
  }

  lemma FlagsNext(difference: nat, i: nat)
    requires i < |BUCKETS| && difference >= RungFloor(i) && difference != 1
    ensures var f, flag := Flags(difference), difference <= BUCKETS[i].max;
            && |f| > i + 1 && f[..i + 1] + [flag] == f[..i + 2]
            && (flag || i + 1 == |BUCKETS| ==> f[..i + 2] == f)
  {
    FlagsAt(difference, i);
  }

  lemma RelativeStarts(previous: int32, current: int32, pos: nat)
    requires Legal(IntRelative(previous), Num(current))
    ensures var d, f := current - previous, Flags(current - previous);
            && Encode(IntRelative(previous), Num(current), pos) == RelativeBits(previous, current)
            && 0 <= previous && d >= 1 && |f| >= 1 && f[..1] == [d == 1]
            && (d == 1 ==> RelativeBits(previous, current) == [true])
            && (d > 1 ==> d >= RungFloor(0) && RelativeBits(previous, current) == [false] + LadderBits(d, current, 0))
  {
    hide LadderBits;
  }

  lemma {:induction false} RungFlagsLead(difference: nat, current: nat, i: nat)
    requires i <= |BUCKETS| && difference >= RungFloor(i)
    ensures RungFlags(difference, i) <= LadderBits(difference, current, i)
    decreases |BUCKETS| - i
  {
    hide EncodeNumeric;
    if i < |BUCKETS| && difference > BUCKETS[i].max {
      RungTooSmall(difference, current, i);
      RungFlagsLead(difference, current, i + 1);
    }
  }

  /** The flags come first in the encoding. */
  lemma FlagsLead(previous: int32, current: int32)
    requires 0 <= previous < current
    ensures Flags(current - previous) <= RelativeBits(previous, current)
  {
    hide LadderBits, RungFlags;
    if current - previous > 1 {
      RungFlagsLead(current - previous, current, 0);
    }
  }

  lemma LadderEnds(difference: nat, current: nat)
    requires difference >= RungFloor(|BUCKETS|)
    ensures LadderBits(difference, current, |BUCKETS|) == ToBits(current, 32)
    ensures current < TWO32 ==> current < Pow2(32)
  {
    Pow2Widths();
  }

  lemma BucketLegal(difference: nat, i: nat)
    requires i < |BUCKETS| && BUCKETS[i].min <= difference <= BUCKETS[i].max
    ensures BUCKETS[i].max < TWO31
    ensures Legal(RangedInt(BUCKETS[i].min, BUCKETS[i].max), Num(difference))
    ensures forall pos :: Encode(RangedInt(BUCKETS[i].min, BUCKETS[i].max), Num(difference), pos)
                       == EncodeNumeric(BucketField(i), difference)
  {
    hide BitLen;
  }

  /** One rung of the ladder as the reader climbs it. */
  lemma LadderStep(previous: int, bits: seq<bool>, pos: nat, i: nat)
    requires pos <= |bits| && i < |BUCKETS|
    ensures var flag := TakeNumeric(Raw(1), bits, pos);
            if flag.No? then TakeLadder(previous, bits, pos, i) == flag
            else if flag.value == Num(0) then
              TakeLadder(previous, bits, pos, i) == TakeLadder(previous, bits, flag.next, i + 1)
            else
              var d := TakeNumeric(BucketField(i), bits, flag.next);
              TakeLadder(previous, bits, pos, i)
              == if d.No? then d else Wire.RelativeResult(previous, previous + d.value.n, d.next)
  {
  }

  lemma LadderFoot(previous: int, bits: seq<bool>, pos: nat)
    requires pos <= |bits|
    ensures var raw := TakeNumeric(Raw(32), bits, pos);
            TakeLadder(previous, bits, pos, |BUCKETS|)
            == if raw.No? then raw
               else if previous < raw.value.n <= INT32_MAX && raw.value.n - previous <= BOUNDED_MAX then
                 No(NonCanonical, raw.next)
               else Wire.RelativeResult(previous, raw.value.n, raw.next)
  {
  }

  lemma FlagTake(bits: seq<bool>, pos: nat)
    requires pos <= |bits|
    ensures Take(Op.Bool, bits, pos) == TakeNumeric(Raw(1), bits, pos)
  {
  }

  lemma WholeTake(bits: seq<bool>, pos: nat)
    requires pos <= |bits|
    ensures Take(Op.Bits(32), bits, pos) == TakeNumeric(Raw(32), bits, pos)
  {
  }

  lemma RelativeTake(previous: int32, bits: seq<bool>, pos: nat)
    requires pos <= |bits|
    ensures Take(IntRelative(previous), bits, pos) == TakeRelative(previous, bits, pos)
  {
  }

  lemma BucketTake(i: nat, bits: seq<bool>, pos: nat)
    requires i < |BUCKETS| && pos <= |bits|
    ensures BUCKETS[i].min <= BUCKETS[i].max < TWO31
    ensures Take(RangedInt(BUCKETS[i].min, BUCKETS[i].max), bits, pos) == TakeNumeric(BucketField(i), bits, pos)
  {
    hide BitLen;
  }

  lemma ShortLadder()
    ensures Flags(2) == [false, true]
    ensures forall pos :: |Encode(IntRelative(0), Num(2), pos)| > 1
  {
    hide BitLen, EncodeNumeric;
    assert RelativeBits(0, 2) == [false] + LadderBits(2, 2, 0);
  }
}
