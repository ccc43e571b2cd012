/** The minimum distance of the format-information code (ISO/IEC
    18004:2006 Annex C: a BCH (15,5) code, masked): any two words of
    `FormatInfoDecodeTable` differ in at least 7 bits, so a word read with
    at most `FormatInfoDecodeTolerance` (3) flipped bits decodes to the word
    it came from.

    The distances are computed on 16-bit vectors, where the solver
    evaluates them directly, and carried over to the integer operations of
    `Bits` through the digit sequences below. */
module FormatDistances {
  import opened Errors
  import opened Bits
  import opened FormatInformations

  // ---------------------------------------------------------------------
  // Single bits of a 16-bit vector

  /** The mask of bit k. */
  function Mask(k: int): bv16
  {
    match k
    case 0 => 0x0001 case 1 => 0x0002 case 2 => 0x0004 case 3 => 0x0008
    case 4 => 0x0010 case 5 => 0x0020 case 6 => 0x0040 case 7 => 0x0080
    case 8 => 0x0100 case 9 => 0x0200 case 10 => 0x0400 case 11 => 0x0800
    case 12 => 0x1000 case 13 => 0x2000 case 14 => 0x4000 case _ => 0x8000
  }

  predicate SingleBit(m: bv16)
  {
    m != 0 && m & (m - 1) == 0
  }

  lemma MaskSingle(k: int)
    ensures SingleBit(Mask(k))
  {
  }

  lemma MaskValues()
    ensures Mask(0) == 0x0001 && Mask(1) == 0x0002 && Mask(2) == 0x0004 && Mask(3) == 0x0008 && Mask(4) == 0x0010 && Mask(5) == 0x0020 && Mask(6) == 0x0040 && Mask(7) == 0x0080 && Mask(8) == 0x0100 && Mask(9) == 0x0200 && Mask(10) == 0x0400 && Mask(11) == 0x0800 && Mask(12) == 0x1000 && Mask(13) == 0x2000 && Mask(14) == 0x4000
  {
  }

  /** The bit of z under the single-bit mask m, as 0 or 1. */
  function BitOf(z: bv16, m: bv16): (r: nat)
    ensures r <= 1
  {
    if z & m == 0 then 0 else 1
  }

  /** Under one mask, the exclusive or has a 1 exactly where the operands
      differ. */
  lemma XorBit(x: bv16, y: bv16, m: bv16)
    requires SingleBit(m)
    ensures BitOf(x ^ y, m) == if BitOf(x, m) == BitOf(y, m) then 0 else 1
  {
  }

  /** The value of the low 15 bits. */
  function BvValue(z: bv16): nat
  {
    BitOf(z, 0x0001) + 2 * BitOf(z, 0x0002) + 4 * BitOf(z, 0x0004) + 8 * BitOf(z, 0x0008) + 16 * BitOf(z, 0x0010) + 32 * BitOf(z, 0x0020) + 64 * BitOf(z, 0x0040) + 128 * BitOf(z, 0x0080)
      + 256 * BitOf(z, 0x0100) + 512 * BitOf(z, 0x0200) + 1024 * BitOf(z, 0x0400) + 2048 * BitOf(z, 0x0800) + 4096 * BitOf(z, 0x1000) + 8192 * BitOf(z, 0x2000) + 16384 * BitOf(z, 0x4000)
  }

  /** The number of set bits among the low 15. */
  function PopBv(z: bv16): nat
  {
    BitOf(z, 0x0001) + BitOf(z, 0x0002) + BitOf(z, 0x0004) + BitOf(z, 0x0008) + BitOf(z, 0x0010) + BitOf(z, 0x0020) + BitOf(z, 0x0040) + BitOf(z, 0x0080)
      + BitOf(z, 0x0100) + BitOf(z, 0x0200) + BitOf(z, 0x0400) + BitOf(z, 0x0800) + BitOf(z, 0x1000) + BitOf(z, 0x2000) + BitOf(z, 0x4000)
  }

  // ---------------------------------------------------------------------
  // Digit sequences: the arithmetic side, free of bit vectors

  /** The low 15 bits of z, least significant first. */
  function Digits(z: bv16): (d: seq<nat>)
    ensures |d| == 15
  {
    seq(15, k => BitOf(z, Mask(k)))
  }

  predicate Binary(d: seq<nat>)
  {
    forall k :: 0 <= k < |d| ==> d[k] <= 1
  }

  /** The value of digits k.. of d, least significant first. */
  function DigitValue(d: seq<nat>, k: nat): nat
    decreases |d| - k
  {
    if k >= |d| then 0 else d[k] + 2 * DigitValue(d, k + 1)
  }

  /** The number of ones among digits k.. of d. */
  function DigitCount(d: seq<nat>, k: nat): nat
    decreases |d| - k
  {
    if k >= |d| then 0 else d[k] + DigitCount(d, k + 1)
  }

  /** Digit by digit: 1 where d and e differ. */
  function DigitXor(d: seq<nat>, e: seq<nat>): (r: seq<nat>)
    requires |d| == |e|
    ensures |r| == |d| && Binary(r)
    ensures forall k :: 0 <= k < |d| ==> (r[k] == 0 <==> d[k] == e[k])
  {
    seq(|d|, k requires 0 <= k < |d| => if d[k] == e[k] then 0 else 1)
  }

  /** One level of the induction below: the low digits and the rest. */
  lemma XorCountStep(a: nat, b: nat, da: nat, va: nat, db: nat, vb: nat)
    requires a == da + 2 * va && b == db + 2 * vb && da <= 1 && db <= 1
    ensures PopCount(NatXor(a, b)) == (if da == db then 0 else 1) + PopCount(NatXor(va, vb))
  {
    NatXorSplit(a, b, va, da, vb, db);
    PopCountSplit(NatXor(a, b), NatXor(va, vb), if da == db then 0 else 1);
  }

  /** The set bits of the exclusive or of two digit values are the digits
      where they differ. */
  lemma {:induction false} XorCount(d: seq<nat>, e: seq<nat>, k: nat)
    requires |d| == |e| && k <= |d| && Binary(d) && Binary(e)
    ensures PopCount(NatXor(DigitValue(d, k), DigitValue(e, k))) == DigitCount(DigitXor(d, e), k)
    decreases |d| - k
  {
    if k == |d| {
      assert NatXor(0, 0) == 0 && PopCount(0) == 0;
    } else {
      XorCount(d, e, k + 1);
      var f := DigitXor(d, e);
      assert DigitCount(f, k) == (if d[k] == e[k] then 0 else 1) + DigitCount(f, k + 1);
      XorCountStep(DigitValue(d, k), DigitValue(e, k), d[k], DigitValue(d, k + 1), e[k], DigitValue(e, k + 1));
    }
  }

  // ---------------------------------------------------------------------
  // From bit vectors to digit sequences

  lemma DigitsBinary(z: bv16)
    ensures Binary(Digits(z))
  {
  }

  /** The digits of an exclusive or are the digit-wise exclusive or. */
  lemma XorDigits(x: bv16, y: bv16)
    ensures DigitXor(Digits(x), Digits(y)) == Digits(x ^ y)
  {
    forall k | 0 <= k < 15
      ensures Digits(x ^ y)[k] == DigitXor(Digits(x), Digits(y))[k]
    {
      MaskSingle(k);
      XorBit(x, y, Mask(k));
    }
  }

  lemma UnfoldDigits(z: bv16, k: nat, m: bv16)
    requires k < 15 && Mask(k) == m
    ensures DigitValue(Digits(z), k) == BitOf(z, m) + 2 * DigitValue(Digits(z), k + 1)
    ensures DigitCount(Digits(z), k) == BitOf(z, m) + DigitCount(Digits(z), k + 1)
  {
  }

  lemma DigitCountA(z: bv16)
    ensures DigitCount(Digits(z), 0) == BitOf(z, 0x0001) + BitOf(z, 0x0002) + BitOf(z, 0x0004) + BitOf(z, 0x0008) + BitOf(z, 0x0010) + DigitCount(Digits(z), 5)
  {
    MaskValues();
    UnfoldDigits(z, 0, 0x0001);
    UnfoldDigits(z, 1, 0x0002);
    UnfoldDigits(z, 2, 0x0004);
    UnfoldDigits(z, 3, 0x0008);
    UnfoldDigits(z, 4, 0x0010);
  }

  lemma DigitCountB(z: bv16)
    ensures DigitCount(Digits(z), 5) == BitOf(z, 0x0020) + BitOf(z, 0x0040) + BitOf(z, 0x0080) + BitOf(z, 0x0100) + BitOf(z, 0x0200) + DigitCount(Digits(z), 10)
  {
    MaskValues();
    UnfoldDigits(z, 5, 0x0020);
    UnfoldDigits(z, 6, 0x0040);
    UnfoldDigits(z, 7, 0x0080);
    UnfoldDigits(z, 8, 0x0100);
    UnfoldDigits(z, 9, 0x0200);
  }

  lemma DigitCountC(z: bv16)
    ensures DigitCount(Digits(z), 10) == BitOf(z, 0x0400) + BitOf(z, 0x0800) + BitOf(z, 0x1000) + BitOf(z, 0x2000) + BitOf(z, 0x4000) + DigitCount(Digits(z), 15)
  {
    MaskValues();
    UnfoldDigits(z, 10, 0x0400);
    UnfoldDigits(z, 11, 0x0800);
    UnfoldDigits(z, 12, 0x1000);
    UnfoldDigits(z, 13, 0x2000);
    UnfoldDigits(z, 14, 0x4000);
  }

  lemma DigitValueA(z: bv16)
    ensures DigitValue(Digits(z), 0) == BitOf(z, 0x0001) + 2 * BitOf(z, 0x0002) + 4 * BitOf(z, 0x0004) + 8 * DigitValue(Digits(z), 3)
  {
    MaskValues();
    UnfoldDigits(z, 0, 0x0001);
    UnfoldDigits(z, 1, 0x0002);
    UnfoldDigits(z, 2, 0x0004);
  }

  lemma DigitValueB(z: bv16)
    ensures DigitValue(Digits(z), 3) == BitOf(z, 0x0008) + 2 * BitOf(z, 0x0010) + 4 * BitOf(z, 0x0020) + 8 * DigitValue(Digits(z), 6)
  {
    MaskValues();
    UnfoldDigits(z, 3, 0x0008);
    UnfoldDigits(z, 4, 0x0010);
    UnfoldDigits(z, 5, 0x0020);
  }

  lemma DigitValueC(z: bv16)
    ensures DigitValue(Digits(z), 6) == BitOf(z, 0x0040) + 2 * BitOf(z, 0x0080) + 4 * BitOf(z, 0x0100) + 8 * DigitValue(Digits(z), 9)
  {
    MaskValues();
    UnfoldDigits(z, 6, 0x0040);
    UnfoldDigits(z, 7, 0x0080);
    UnfoldDigits(z, 8, 0x0100);
  }

  lemma DigitValueD(z: bv16)
    ensures DigitValue(Digits(z), 9) == BitOf(z, 0x0200) + 2 * BitOf(z, 0x0400) + 4 * BitOf(z, 0x0800) + 8 * DigitValue(Digits(z), 12)
  {
    MaskValues();
    UnfoldDigits(z, 9, 0x0200);
    UnfoldDigits(z, 10, 0x0400);
    UnfoldDigits(z, 11, 0x0800);
  }

  lemma DigitValueE(z: bv16)
    ensures DigitValue(Digits(z), 12) == BitOf(z, 0x1000) + 2 * BitOf(z, 0x2000) + 4 * BitOf(z, 0x4000) + 8 * DigitValue(Digits(z), 15)
  {
    MaskValues();
    UnfoldDigits(z, 12, 0x1000);
    UnfoldDigits(z, 13, 0x2000);
    UnfoldDigits(z, 14, 0x4000);
  }

  /** The digits read back to the value and the count of the vector. */
  lemma DigitsAgree(z: bv16)
    ensures DigitValue(Digits(z), 0) == BvValue(z)
    ensures DigitCount(Digits(z), 0) == PopBv(z)
  {
    DigitCountA(z);
    DigitCountB(z);
    DigitCountC(z);
    DigitValueA(z);
    DigitValueB(z);
    DigitValueC(z);
    DigitValueD(z);
    DigitValueE(z);
    assert DigitValue(Digits(z), 15) == 0 && DigitCount(Digits(z), 15) == 0;
  }

  /** The integer distance between the values of two vectors is the number
      of set bits of their vector exclusive or. */
  lemma BvDistance(x: bv16, y: bv16)
    ensures DifferentBitCount(BvValue(x), BvValue(y)) == PopBv(x ^ y)
  {
    DigitsAgree(x);
    DigitsAgree(y);
    DigitsAgree(x ^ y);
    DigitsBinary(x);
    DigitsBinary(y);
    XorCount(Digits(x), Digits(y), 0);
    XorDigits(x, y);
  }

  // ---------------------------------------------------------------------
  // The table

  /** The code words of `FormatInfoDecodeTable` as 16-bit vectors. */
  function Word(i: int): bv16
  {
    match i
    case 0 => 0x5412 case 1 => 0x5125 case 2 => 0x5e7c case 3 => 0x5b4b
    case 4 => 0x45f9 case 5 => 0x40ce case 6 => 0x4f97 case 7 => 0x4aa0
    case 8 => 0x77c4 case 9 => 0x72f3 case 10 => 0x7daa case 11 => 0x789d
    case 12 => 0x662f case 13 => 0x6318 case 14 => 0x6c41 case 15 => 0x6976
    case 16 => 0x1689 case 17 => 0x13be case 18 => 0x1ce7 case 19 => 0x19d0
    case 20 => 0x0762 case 21 => 0x0255 case 22 => 0x0d0c case 23 => 0x083b
    case 24 => 0x355f case 25 => 0x3068 case 26 => 0x3f31 case 27 => 0x3a06
    case 28 => 0x24b4 case 29 => 0x2183 case 30 => 0x2eda case 31 => 0x2bed
    case _ => 0
  }

  lemma WordValues0()
    ensures forall i :: 0 <= i < 8 ==> FormatInfoDecodeTable[i].lookupId == BvValue(Word(i))
  {
  }

  lemma WordValues1()
    ensures forall i :: 8 <= i < 16 ==> FormatInfoDecodeTable[i].lookupId == BvValue(Word(i))
  {
  }

  lemma WordValues2()
    ensures forall i :: 16 <= i < 24 ==> FormatInfoDecodeTable[i].lookupId == BvValue(Word(i))
  {
  }

  lemma WordValues3()
    ensures forall i :: 24 <= i < 32 ==> FormatInfoDecodeTable[i].lookupId == BvValue(Word(i))
  {
  }

  lemma PairsFar0()
    ensures forall i, j :: (i == 0 || i == 30) && i < j < 32 ==> PopBv(Word(i) ^ Word(j)) >= 7
  {
  }

  lemma PairsFar1()
    ensures forall i, j :: (i == 1 || i == 29) && i < j < 32 ==> PopBv(Word(i) ^ Word(j)) >= 7
  {
  }

  lemma PairsFar2()
    ensures forall i, j :: (i == 2 || i == 28) && i < j < 32 ==> PopBv(Word(i) ^ Word(j)) >= 7
  {
  }

  lemma PairsFar3()
    ensures forall i, j :: (i == 3 || i == 27) && i < j < 32 ==> PopBv(Word(i) ^ Word(j)) >= 7
  {
  }

  lemma PairsFar4()
    ensures forall i, j :: (i == 4 || i == 26) && i < j < 32 ==> PopBv(Word(i) ^ Word(j)) >= 7
  {
  }

  lemma PairsFar5()
    ensures forall i, j :: (i == 5 || i == 25) && i < j < 32 ==> PopBv(Word(i) ^ Word(j)) >= 7
  {
  }

  lemma PairsFar6()
    ensures forall i, j :: (i == 6 || i == 24) && i < j < 32 ==> PopBv(Word(i) ^ Word(j)) >= 7
  {
  }

  lemma PairsFar7()
    ensures forall i, j :: (i == 7 || i == 23) && i < j < 32 ==> PopBv(Word(i) ^ Word(j)) >= 7
  {
  }

  lemma PairsFar8()
    ensures forall i, j :: (i == 8 || i == 22) && i < j < 32 ==> PopBv(Word(i) ^ Word(j)) >= 7
  {
  }

  lemma PairsFar9()
    ensures forall i, j :: (i == 9 || i == 21) && i < j < 32 ==> PopBv(Word(i) ^ Word(j)) >= 7
  {
  }

  lemma PairsFar10()
    ensures forall i, j :: (i == 10 || i == 20) && i < j < 32 ==> PopBv(Word(i) ^ Word(j)) >= 7
  {
  }

  lemma PairsFar11()
    ensures forall i, j :: (i == 11 || i == 19) && i < j < 32 ==> PopBv(Word(i) ^ Word(j)) >= 7
  {
  }

  lemma PairsFar12()
    ensures forall i, j :: (i == 12 || i == 18) && i < j < 32 ==> PopBv(Word(i) ^ Word(j)) >= 7
  {
  }

  lemma PairsFar13()
    ensures forall i, j :: (i == 13 || i == 17) && i < j < 32 ==> PopBv(Word(i) ^ Word(j)) >= 7
  {
  }

  lemma PairsFar14()
    ensures forall i, j :: (i == 14 || i == 16) && i < j < 32 ==> PopBv(Word(i) ^ Word(j)) >= 7
  {
  }

  lemma PairsFar15()
    ensures forall i, j :: 15 <= i < 16 && i < j < 32 ==> PopBv(Word(i) ^ Word(j)) >= 7
  {
  }

  /** The table's words as vectors differ in at least 7 of their low 15 bits. */
  lemma WordsFar(i: int, j: int)
    requires 0 <= i < j < 32
    ensures PopBv(Word(i) ^ Word(j)) >= 7
  {
    PairsFar0();
    PairsFar1();
    PairsFar2();
    PairsFar3();
    PairsFar4();
    PairsFar5();
    PairsFar6();
    PairsFar7();
    PairsFar8();
    PairsFar9();
    PairsFar10();
    PairsFar11();
    PairsFar12();
    PairsFar13();
    PairsFar14();
    PairsFar15();
  }

  /** Word i is the code word of row i. */
  lemma WordValue(i: int)
    requires 0 <= i < 32
    ensures FormatInfoDecodeTable[i].lookupId == BvValue(Word(i))
  {
    WordValues0();
    WordValues1();
    WordValues2();
    WordValues3();
  }

  lemma PairDistance(i: int, j: int)
    requires 0 <= i < j < 32
    ensures DifferentBitCount(FormatInfoDecodeTable[i].lookupId, FormatInfoDecodeTable[j].lookupId) >= 7
  {
    WordValue(i);
    WordValue(j);
    WordsFar(i, j);
    BvDistance(Word(i), Word(j));
  }

  /** Any two words of the table differ in at least 7 bits, and every word
      is a 15-bit value. */
  lemma TableDistance()
    ensures forall i, j :: 0 <= i < j < 32 ==>
      DifferentBitCount(FormatInfoDecodeTable[i].lookupId, FormatInfoDecodeTable[j].lookupId) >= 7
    ensures forall i :: 0 <= i < 32 ==> 0 <= FormatInfoDecodeTable[i].lookupId < 0x8000
  {
    forall i, j | 0 <= i < j < 32
      ensures DifferentBitCount(FormatInfoDecodeTable[i].lookupId, FormatInfoDecodeTable[j].lookupId) >= 7
    {
      PairDistance(i, j);
    }
    forall i | 0 <= i < 32
      ensures 0 <= FormatInfoDecodeTable[i].lookupId < 0x8000
    {
      WordValue(i);
    }
  }

  /** Two distinct rows are at least 7 bits apart, in either order. */
  lemma RowsFar(i: int, j: int)
    requires 0 <= i < 32 && 0 <= j < 32 && i != j
    ensures DifferentBitCount(FormatInfoDecodeTable[i].lookupId, FormatInfoDecodeTable[j].lookupId) >= 7
  {
    if i < j {
      PairDistance(i, j);
    } else {
      PairDistance(j, i);
      DifferentBitCountMetric(FormatInfoDecodeTable[j].lookupId, FormatInfoDecodeTable[i].lookupId);
    }
  }

  /** A read within the tolerance of one word is beyond the tolerance of
      every other. */
  lemma OthersBeyondTolerance(w: int, k: int, j: int)
    requires w >= 0 && 0 <= k < 32 && 0 <= j < 32 && j != k
    requires DifferentBitCount(w, FormatInfoDecodeTable[k].lookupId) <= FormatInfoDecodeTolerance
    ensures DifferentBitCount(w, FormatInfoDecodeTable[j].lookupId) > FormatInfoDecodeTolerance
  {
    var a, b := FormatInfoDecodeTable[k].lookupId, FormatInfoDecodeTable[j].lookupId;
    TableDistance();
    RowsFar(k, j);
    DifferentBitCountMetric(w, a);
    DifferentBitCountTriangle(a, w, b);
  }

  /** A format word read with at most `FormatInfoDecodeTolerance` flipped
      bits decodes to the level and mask of the word it came from, whether
      it is read as it is or, with the mask applied again, as
      `decode(..., applyMask: true)` undoes it. (The count of a negative
      exclusive or is 0 in `nonzeroBitCount`, so the read is taken
      non-negative, as 15 bits read from a symbol are.) */
  lemma DecodeWithinTolerance(w: int, k: int)
    requires 0 <= k < 32 && 0 <= w <= IntMax
    requires DifferentBitCount(w, FormatInfoDecodeTable[k].lookupId) <= FormatInfoDecodeTolerance
    ensures DecodeFormatResult(w, w, false) == Some(ParseFormat(k))
    ensures DecodeFormatResult(Xor(w, FormatInfoMaskQR), Xor(w, FormatInfoMaskQR), true) == Some(ParseFormat(k))
  {
    var table := FormatInfoDecodeTable;
    TableShape();
    TableDistance();
    XorCancel(w, FormatInfoMaskQR);
    var i := FirstExact(table, w, w);
    if i >= 0 {
      if i != k {
        RowsFar(i, k);
        assert false;
      }
    } else {
      NearestEntry(table, w, w, FormatInfoDecodeTolerance);
      var m := FirstMinimum(table, w, w, |table|);
      if m != k {
        OthersBeyondTolerance(w, k, m);
        assert false;
      }
    }
  }
}
