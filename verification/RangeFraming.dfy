/** LRANGE replies: how the size a range snapshot reserves compares with the bytes that are written. */
module RangeFraming {
  import opened ByteStrings
  import opened Packed
  import opened RespText
  import opened RespValue
  import opened RespParse
  import opened RespPrint
  import opened ListPacking

  /** The digits of all length headers together. */
  function LengthDigits(elems: seq<Bytes>): nat {
    if elems == [] then 0 else |Decimal(|elems[0]|)| + LengthDigits(elems[1..])
  }

  /** The reply to a range. */
  function RangeReply(elems: seq<Bytes>, version: nat): Bytes {
    Print(Array(Bulks(elems)), version)
  }

  lemma {:induction false} BulksSize(elems: seq<Bytes>, version: nat)
    ensures |PrintAll(Bulks(elems), version)| == 5 * |elems| + LengthDigits(elems) + TotalLen(elems)
  {
    if elems != [] {
      BulksSize(elems[1..], version);
      assert Bulks(elems)[0] == BulkString(elems[0]) && Bulks(elems)[1..] == Bulks(elems[1..]);
    }
  }

  /** What the reply needs exactly. */
  lemma ReplySize(elems: seq<Bytes>, version: nat)
    ensures |RangeReply(elems, version)| == 3 + |Decimal(|elems|)| + 5 * |elems| + LengthDigits(elems) + TotalLen(elems)
  {
    BulksSize(elems, version);
  }

  /**
   Exactly when the reserved size is enough, and exactly when it is the size written: it allows 13
   digits for the count and 7 for each length, on average.
   */
  lemma EstimateIs(elems: seq<Bytes>, version: nat)
    ensures |RangeReply(elems, version)| <= Estimate(elems) <==> |Decimal(|elems|)| + LengthDigits(elems) <= 13 + 7 * |elems|
    ensures |RangeReply(elems, version)| == Estimate(elems) <==> |Decimal(|elems|)| + LengthDigits(elems) == 13 + 7 * |elems|
  {
    ReplySize(elems, version);
  }

  lemma Pow10Of7()
    ensures Pow10(7) == 10_000_000 && Pow10(12) == 1_000_000_000_000
  {
    assert Pow10(4) == 10_000;
    assert Pow10(7) == 1000 * Pow10(4);
    assert Pow10(10) == 1000 * Pow10(7);
    assert Pow10(12) == 100 * Pow10(10);
  }

  lemma {:induction false} FewDigits(elems: seq<Bytes>)
    requires forall x :: x in elems ==> |x| < 10_000_000
    ensures LengthDigits(elems) <= 7 * |elems|
  {
    if elems != [] {
      assert elems[0] in elems;
      Pow10Of7();
      DecimalLength(|elems[0]|, 7, 10_000_000);
      FewDigits(elems[1..]);
    }
  }

  /** Elements under ten million bytes, fewer than 10^12 of them: always enough and never exact. */
  lemma SmallElementsFit(elems: seq<Bytes>, version: nat)
    requires |elems| < 1_000_000_000_000 && forall x :: x in elems ==> |x| < 10_000_000
    ensures |RangeReply(elems, version)| < Estimate(elems)
  {
    Pow10Of7();
    DecimalLength(|elems|, 12, 1_000_000_000_000);
    FewDigits(elems);
    ReplySize(elems, version);
  }

  lemma {:induction false} EightDigitsEach(elems: seq<Bytes>)
    requires forall x :: x in elems ==> |x| == 10_000_000
    ensures LengthDigits(elems) == 8 * |elems|
  {
    if elems != [] {
      assert elems[0] in elems;
      TenMillionHasEightDigits();
      EightDigitsEach(elems[1..]);
    }
  }

  lemma TenMillionHasEightDigits()
    ensures |Decimal(10_000_000)| == 8 && |Decimal(12)| == 2
  {
    assert |Decimal(1000)| == 4;
    assert |Decimal(1_000_000)| == |Decimal(1000)| + 3;
    assert |Decimal(10_000_000)| == |Decimal(1_000_000)| + 1;
  }

  /** Twelve elements of ten million bytes: the reserved size is one byte short. */
  lemma TwelveLongElementsOverflow(elems: seq<Bytes>, version: nat)
    requires |elems| == 12 && forall x :: x in elems ==> |x| == 10_000_000
    ensures |RangeReply(elems, version)| == Estimate(elems) + 1
  {
    TenMillionHasEightDigits();
    EightDigitsEach(elems);
    ReplySize(elems, version);
  }
}
