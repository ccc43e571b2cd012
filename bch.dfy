/** `calculateBCHCode` of ZXMatrixUtils.swift: the BCH check bits of the
    format and version information, computed as a remainder of polynomials
    over GF(2) held in the bits of an `Int`, by repeated exclusive or. */
module Bch {
  import opened Errors
  import opened Bits
  import IntegerUtils

  /** `VersionInfoPoly`: x^12 + x^11 + x^10 + x^9 + x^8 + x^5 + x^2 + 1. */
  const VersionInfoPoly := 0x1F25

  /** `FormatInfoPoly`: x^10 + x^8 + x^5 + x^4 + x^2 + x + 1. */
  const FormatInfoPoly := 0x537

  /** Swift's `v << k` on an `Int` that does not overflow: k doublings. */
  function Shl(v: int, k: nat): (r: int)
    ensures v > 0 ==> r >= v
    ensures v == 0 ==> r == 0
    ensures v >= 0 ==> r >= 0
    ensures v < 0 ==> r < 0
  {
    if k == 0 then v else 2 * Shl(v, k - 1)
  }

  lemma {:induction false} ShlOne(k: nat)
    ensures Shl(1, k) == Pow2(k)
  {
    if k > 0 {
      ShlOne(k - 1);
    }
  }

  lemma {:induction false} ShlMonotone(u: int, v: int, k: nat)
    requires u <= v
    ensures Shl(u, k) <= Shl(v, k)
  {
    if k > 0 {
      ShlMonotone(u, v, k - 1);
    }
  }

  // ---------------------------------------------------------------------
  // Exclusive or on the halves of a number

  /** Exclusive or of two numbers with the same top bit 2^k clears it. */
  lemma {:induction false} NatXorSameTop(k: nat, x: nat, y: nat)
    requires Pow2(k) <= x < 2 * Pow2(k) && Pow2(k) <= y < 2 * Pow2(k)
    ensures NatXor(x, y) < Pow2(k)
    decreases k
  {
    if k == 0 {
      assert x == 1 && y == 1;
      NatXorSelf(1);
    } else {
      var p := Pow2(k - 1);
      assert Pow2(k) == 2 * p;
      var hx, lx, hy, ly := x / 2, x % 2, y / 2, y % 2;
      assert x == 2 * hx + lx && y == 2 * hy + ly;
      NatXorSameTop(k - 1, hx, hy);
      NatXorSplit(x, y, hx, lx, hy, ly);
    }
  }

  /** Exclusive or commutes with doubling. */
  lemma NatXorDouble(a: nat, b: nat)
    ensures NatXor(2 * a, 2 * b) == 2 * NatXor(a, b)
  {
    NatXorSplit(2 * a, 2 * b, a, 0, b, 0);
  }

  lemma {:induction false} NatXorAssoc(a: nat, b: nat, c: nat)
    ensures NatXor(NatXor(a, b), c) == NatXor(a, NatXor(b, c))
    decreases a + b + c
  {
    if a + b + c > 0 {
      var ab, bc := NatXor(a, b), NatXor(b, c);
      var abLow := if a % 2 == b % 2 then 0 else 1;
      var bcLow := if b % 2 == c % 2 then 0 else 1;
      NatXorSplit(a, b, a / 2, a % 2, b / 2, b % 2);
      NatXorSplit(b, c, b / 2, b % 2, c / 2, c % 2);
      NatXorSplit(ab, c, NatXor(a / 2, b / 2), abLow, c / 2, c % 2);
      NatXorSplit(a, bc, a / 2, a % 2, NatXor(b / 2, c / 2), bcLow);
      NatXorAssoc(a / 2, b / 2, c / 2);
    }
  }

  /** (p ^ q) ^ (r ^ s) == (p ^ r) ^ (q ^ s). */
  lemma NatXorSwapMiddle(p: nat, q: nat, r: nat, s: nat)
    ensures NatXor(NatXor(p, q), NatXor(r, s)) == NatXor(NatXor(p, r), NatXor(q, s))
  {
    NatXorAssoc(p, q, NatXor(r, s));
    NatXorAssoc(q, r, s);
    NatXorComm(q, r);
    NatXorAssoc(r, q, s);
    NatXorAssoc(p, r, NatXor(q, s));
  }

  // ---------------------------------------------------------------------
  // Polynomials over GF(2)

  /** The product of two polynomials over GF(2), each held in the bits of a
      number (carry-less multiplication). */
  function ClMul(a: nat, b: nat): nat
  {
    if a == 0 then 0 else NatXor(if a % 2 == 1 then b else 0, 2 * ClMul(a / 2, b))
  }

  lemma ClMulUnfold(a: nat, b: nat)
    ensures ClMul(a, b) == NatXor(if a % 2 == 1 then b else 0, 2 * ClMul(a / 2, b))
  {
    if a == 0 {
      assert NatXor(0, 0) == 0;
    }
  }

  /** Multiplication distributes over addition (exclusive or) of polynomials. */
  lemma {:induction false} ClMulXor(a: nat, c: nat, b: nat)
    ensures ClMul(NatXor(a, c), b) == NatXor(ClMul(a, b), ClMul(c, b))
    decreases a + c
  {
    var x := NatXor(a, c);
    if a + c == 0 {
      assert x == 0;
      assert NatXor(0, 0) == 0;
    } else {
      NatXorSplit(a, c, a / 2, a % 2, c / 2, c % 2);
      assert x / 2 == NatXor(a / 2, c / 2);
      ClMulXor(a / 2, c / 2, b);
      var la, lc, lx := (if a % 2 == 1 then b else 0), (if c % 2 == 1 then b else 0), (if x % 2 == 1 then b else 0);
      assert lx == NatXor(la, lc) by {
        NatXorZero(b);
        NatXorSelf(b);
        assert NatXor(0, 0) == 0;
      }
      NatXorDouble(ClMul(a / 2, b), ClMul(c / 2, b));
      ClMulUnfold(x, b);
      ClMulUnfold(a, b);
      ClMulUnfold(c, b);
      NatXorSwapMiddle(la, lc, 2 * ClMul(a / 2, b), 2 * ClMul(c / 2, b));
    }
  }

  /** Multiplying by x^k shifts left by k. */
  lemma {:induction false} ClMulPow2(k: nat, b: nat)
    ensures ClMul(Pow2(k), b) == Shl(b, k)
    decreases k
  {
    if k == 0 {
      assert ClMul(0, b) == 0;
      NatXorZero(b);
    } else {
      ClMulPow2(k - 1, b);
      assert Pow2(k) / 2 == Pow2(k - 1) && Pow2(k) % 2 == 0;
      NatXorZero(2 * ClMul(Pow2(k - 1), b));
    }
  }

  // ---------------------------------------------------------------------
  // The division loop

  /** Shifting left by k adds k significant bits. */
  lemma {:induction false} BitLengthShift(v: int, k: nat)
    requires v > 0
    ensures BitLength(Shl(v, k)) == BitLength(v) + k
    decreases k
  {
    if k > 0 {
      BitLengthShift(v, k - 1);
      var x := Shl(v, k - 1);
      assert (2 * x) / 2 == x;
    }
  }

  /** A positive value with n significant bits lies in [2^(n-1), 2^n). */
  lemma TopBit(v: int, n: nat)
    requires v > 0 && BitLength(v) == n
    ensures n >= 1 && Pow2(n - 1) <= v < 2 * Pow2(n - 1)
  {
    BitLengthBounds(v);
  }

  /** One step of the loop: when the remainder has at least as many bits as
      poly, poly shifted under its top bit cancels that bit. */
  lemma ReduceStep(remainder: int, poly: int)
    requires poly > 0 && BitLength(remainder) >= BitLength(poly)
    ensures remainder > 0
    ensures BitLength(NatXor(remainder, Shl(poly, BitLength(remainder) - BitLength(poly)))) < BitLength(remainder)
  {
    var n := BitLength(remainder);
    var s := Shl(poly, n - BitLength(poly));
    BitLengthShift(poly, n - BitLength(poly));
    TopBit(remainder, n);
    TopBit(s, n);
    var x := NatXor(remainder, s);
    NatXorSameTop(n - 1, remainder, s);
    BitLengthFits(x, n - 1);
  }

  /** The remainder the loop of `calculateBCHCode` leaves: while it has at
      least as many significant bits as poly (`bitWidth`), exclusive-or poly
      shifted to its top bit into it. The result is shorter than poly, and
      non-negative for a non-negative start. */
  function BchReduce(remainder: int, poly: int): (r: int)
    requires poly > 0
    ensures BitLength(r) < BitLength(poly)
    ensures remainder >= 0 ==> r >= 0
    decreases BitLength(remainder)
  {
    if BitLength(remainder) < BitLength(poly) then remainder
    else
      ReduceStep(remainder, poly);
      BchReduce(Xor(remainder, Shl(poly, BitLength(remainder) - BitLength(poly))), poly)
  }

  /** For a non-negative start, BchReduce is the remainder of the division
      by poly over GF(2): the two differ by a multiple of poly, and it is
      shorter than poly. */
  lemma {:induction false} BchReduceIsRemainder(remainder: nat, poly: int)
    requires poly > 0
    ensures exists q: nat :: NatXor(remainder, BchReduce(remainder, poly)) == ClMul(q, poly)
    decreases BitLength(remainder)
  {
    var r := BchReduce(remainder, poly);
    if BitLength(remainder) < BitLength(poly) {
      NatXorSelf(remainder);
      assert NatXor(remainder, r) == ClMul(0, poly);
    } else {
      var k := BitLength(remainder) - BitLength(poly);
      var s := Shl(poly, k);
      ReduceStep(remainder, poly);
      var next := NatXor(remainder, s);
      assert r == BchReduce(next, poly);
      BchReduceIsRemainder(next, poly);
      var q: nat :| NatXor(next, r) == ClMul(q, poly);
      // remainder == next ^ s
      NatXorAssoc(remainder, s, s);
      NatXorSelf(s);
      NatXorZero(remainder);
      // remainder ^ r == (next ^ r) ^ s
      NatXorAssoc(next, s, r);
      NatXorComm(s, r);
      NatXorAssoc(next, r, s);
      ClMulPow2(k, poly);
      ClMulXor(q, Pow2(k), poly);
      assert NatXor(remainder, r) == ClMul(NatXor(q, Pow2(k)), poly);
    }
  }

  /** The loop body `remainder ^= poly << (remainder.bitWidth - polyMSB)`
      shortens the remainder and leaves its BCH code unchanged. */
  lemma LoopStep(remainder: int, poly: int, k: int, shifted: int)
    requires poly > 0 && BitLength(remainder) >= BitLength(poly)
    requires k == BitLength(remainder) - BitLength(poly) && shifted == Shl(poly, k)
    ensures BitLength(Xor(remainder, shifted)) < BitLength(remainder)
    ensures BchReduce(Xor(remainder, shifted), poly) == BchReduce(remainder, poly)
  {
    ReduceStep(remainder, poly);
  }

  /** A positive input gives a non-negative start, whose BCH code is its
      GF(2) remainder modulo poly. */
  lemma BchCodeIsRemainder(input: int, poly: int)
    requires input > 0 && poly > 0
    ensures BchStart(input, poly) >= 0
    ensures exists q: nat :: NatXor(BchStart(input, poly), BchReduce(BchStart(input, poly), poly)) == ClMul(q, poly)
  {
    BchReduceIsRemainder(BchStart(input, poly), poly);
  }

  /** `input << polyMSB - 1`: Swift's shift binds tighter than its minus,
      so this is `(input << polyMSB) - 1`. */
  function BchStart(input: int, poly: int): int
  {
    Shl(input, BitLength(poly)) - 1
  }

  /** The shift of `input` stays within a 64-bit `Int`. */
  predicate ShiftFits(input: int, poly: int)
  {
    -(Pow2(63) as int) < Shl(input, BitLength(poly)) < Pow2(63)
  }

  /** `calculateBCHCode(input:poly:)`: throws `IllegalArgument` for a zero
      polynomial; otherwise the remainder loop run from `BchStart`. The code
      has fewer significant bits than poly, and for a positive input it is
      the GF(2) remainder of that start modulo poly. */
  method CalculateBCHCode(input: int, poly: int) returns (r: Result<int>)
    requires poly >= 0
    requires poly != 0 ==> ShiftFits(input, poly)
    ensures r.Err? <==> poly == 0
    ensures r.Err? ==> r.error == IllegalArgument
    ensures r.Ok? ==> r.value == BchReduce(BchStart(input, poly), poly)
    ensures r.Ok? ==> BitLength(r.value) < BitLength(poly)
    ensures r.Ok? && input > 0 ==>
      r.value >= 0 && exists q: nat :: NatXor(BchStart(input, poly), r.value) == ClMul(q, poly)
  {
    if poly == 0 {
      return Err(IllegalArgument);
    }
    var polyMSB := IntegerUtils.BitWidth(poly);
    var remainder := Shl(input, polyMSB) - 1;
    ghost var start := remainder;
    assert start == BchStart(input, poly);
    var width := IntegerUtils.BitWidth(remainder);
    while width >= polyMSB
      invariant width == BitLength(remainder)
      invariant BchReduce(remainder, poly) == BchReduce(start, poly)
      decreases width
    {
      var shifted := Shl(poly, width - polyMSB);
      LoopStep(remainder, poly, width - polyMSB, shifted);
      remainder := Xor(remainder, shifted);
      width := IntegerUtils.BitWidth(remainder);
    }
    if input > 0 {
      BchCodeIsRemainder(input, poly);
    }
    return Ok(remainder);
  }

  // ---------------------------------------------------------------------
  // The documented example: version 7

  /** The remainder the comment on `calculateBCHCode` describes: the input
      multiplied by x^deg, where deg, the degree of poly, is one less than
      its number of significant bits, reduced modulo poly. */
  function IntendedBchCode(input: nat, poly: int): (r: nat)
    requires poly > 0
    ensures BitLength(r) < BitLength(poly)
    ensures exists q: nat :: NatXor(Shl(input, BitLength(poly) - 1), r) == ClMul(q, poly)
  {
    BchReduceIsRemainder(Shl(input, BitLength(poly) - 1), poly);
    BchReduce(Shl(input, BitLength(poly) - 1), poly)
  }

  /** The powers of two the example needs. */
  lemma Pow2Upper()
    ensures Pow2(10) == 0x0400 && Pow2(11) == 0x0800 && Pow2(12) == 0x1000 && Pow2(13) == 0x2000
    ensures Pow2(14) == 0x4000 && Pow2(15) == 0x8000 && Pow2(16) == 0x10000
  {
    assert Pow2(1) == 2;
    assert Pow2(2) == 4;
    assert Pow2(3) == 8;
    assert Pow2(4) == 16;
    assert Pow2(5) == 32;
    assert Pow2(6) == 64;
    assert Pow2(7) == 128;
    assert Pow2(8) == 256;
    assert Pow2(9) == 512;
    assert Pow2(10) == 1024;
    assert Pow2(11) == 2048;
    assert Pow2(12) == 4096;
    assert Pow2(13) == 8192;
    assert Pow2(14) == 16384;
    assert Pow2(15) == 32768;
  }

  // The exclusive ors of the example, one bit at a time from the top.

  /** The first pass of the loop as written. */
  lemma XorStart()
    ensures NatXor(0xdfff, 0xf928) == 0x26d7
  {
    assert NatXor(0x0001, 0x0001) == 0x0000;
    assert NatXor(0x0003, 0x0003) == 0x0000;
    assert NatXor(0x0006, 0x0007) == 0x0001;
    assert NatXor(0x000d, 0x000f) == 0x0002;
    assert NatXor(0x001b, 0x001f) == 0x0004;
    assert NatXor(0x0037, 0x003e) == 0x0009;
    assert NatXor(0x006f, 0x007c) == 0x0013;
    assert NatXor(0x00df, 0x00f9) == 0x0026;
    assert NatXor(0x01bf, 0x01f2) == 0x004d;
    assert NatXor(0x037f, 0x03e4) == 0x009b;
    assert NatXor(0x06ff, 0x07c9) == 0x0136;
    assert NatXor(0x0dff, 0x0f92) == 0x026d;
    assert NatXor(0x1bff, 0x1f25) == 0x04da;
    assert NatXor(0x37ff, 0x3e4a) == 0x09b5;
    assert NatXor(0x6fff, 0x7c94) == 0x136b;
  }

  /** The second pass as written. */
  lemma XorSecond()
    ensures NatXor(0x26d7, 0x3e4a) == 0x189d
  {
    assert NatXor(0x0001, 0x0001) == 0x0000;
    assert NatXor(0x0002, 0x0003) == 0x0001;
    assert NatXor(0x0004, 0x0007) == 0x0003;
    assert NatXor(0x0009, 0x000f) == 0x0006;
    assert NatXor(0x0013, 0x001f) == 0x000c;
    assert NatXor(0x0026, 0x003e) == 0x0018;
    assert NatXor(0x004d, 0x007c) == 0x0031;
    assert NatXor(0x009b, 0x00f9) == 0x0062;
    assert NatXor(0x0136, 0x01f2) == 0x00c4;
    assert NatXor(0x026d, 0x03e4) == 0x0189;
    assert NatXor(0x04da, 0x07c9) == 0x0313;
    assert NatXor(0x09b5, 0x0f92) == 0x0627;
    assert NatXor(0x136b, 0x1f25) == 0x0c4e;
  }

  /** The third pass as written. */
  lemma XorThird()
    ensures NatXor(0x189d, 0x1f25) == 0x07b8
  {
    assert NatXor(0x0001, 0x0001) == 0x0000;
    assert NatXor(0x0003, 0x0003) == 0x0000;
    assert NatXor(0x0006, 0x0007) == 0x0001;
    assert NatXor(0x000c, 0x000f) == 0x0003;
    assert NatXor(0x0018, 0x001f) == 0x0007;
    assert NatXor(0x0031, 0x003e) == 0x000f;
    assert NatXor(0x0062, 0x007c) == 0x001e;
    assert NatXor(0x00c4, 0x00f9) == 0x003d;
    assert NatXor(0x0189, 0x01f2) == 0x007b;
    assert NatXor(0x0313, 0x03e4) == 0x00f7;
    assert NatXor(0x0627, 0x07c9) == 0x01ee;
    assert NatXor(0x0c4e, 0x0f92) == 0x03dc;
  }

  /** The only pass of the intended division. */
  lemma XorIntended()
    ensures NatXor(0x7000, 0x7c94) == 0x0c94
  {
    assert NatXor(0x0001, 0x0001) == 0x0000;
    assert NatXor(0x0003, 0x0003) == 0x0000;
    assert NatXor(0x0007, 0x0007) == 0x0000;
    assert NatXor(0x000e, 0x000f) == 0x0001;
    assert NatXor(0x001c, 0x001f) == 0x0003;
    assert NatXor(0x0038, 0x003e) == 0x0006;
    assert NatXor(0x0070, 0x007c) == 0x000c;
    assert NatXor(0x00e0, 0x00f9) == 0x0019;
    assert NatXor(0x01c0, 0x01f2) == 0x0032;
    assert NatXor(0x0380, 0x03e4) == 0x0064;
    assert NatXor(0x0700, 0x07c9) == 0x00c9;
    assert NatXor(0x0e00, 0x0f92) == 0x0192;
    assert NatXor(0x1c00, 0x1f25) == 0x0325;
    assert NatXor(0x3800, 0x3e4a) == 0x064a;
  }

  /** A value in [2^(n-1), 2^n) has n significant bits. */
  lemma BitLengthIs(v: int, n: nat)
    requires n >= 1 && Pow2(n - 1) <= v < Pow2(n)
    ensures BitLength(v) == n
  {
    BitLengthFits(v, n);
    BitLengthFits(v, n - 1);
  }

  /** One pass of the loop on concrete values: `remainder` has n bits,
      poly shifted by n - 13 is `shifted`, and their exclusive or is
      `next`. */
  lemma VersionPolyStep(remainder: nat, n: nat, shifted: nat, next: nat)
    requires 13 <= n <= 16 && Pow2(n - 1) <= remainder < Pow2(n)
    requires shifted == Shl(VersionInfoPoly, n - 13) && NatXor(remainder, shifted) == next
    ensures BchReduce(remainder, VersionInfoPoly) == BchReduce(next, VersionInfoPoly)
  {
    Pow2Upper();
    BitLengthIs(VersionInfoPoly, 13);
    BitLengthIs(remainder, n);
  }

  /** As written, version 7 gets the check bits 0x7B8, not the 0xC94 the
      comment on `calculateBCHCode` works out: the start `(7 << 13) - 1` is
      x^15 + x^14 + x^12 + x^11 + ... + 1 rather than 7 * x^12. */
  lemma VersionSevenAsWritten()
    ensures BchStart(7, VersionInfoPoly) == 0xDFFF
    ensures BchReduce(BchStart(7, VersionInfoPoly), VersionInfoPoly) == 0x7B8
    ensures BchReduce(BchStart(7, VersionInfoPoly), VersionInfoPoly) != 0xC94
  {
    Pow2Upper();
    BitLengthIs(VersionInfoPoly, 13);
    assert Shl(7, 13) == 0xE000;
    AsWrittenPasses();
  }

  /** The three passes of the loop from 0xDFFF. */
  lemma AsWrittenPasses()
    ensures BchReduce(0xDFFF, VersionInfoPoly) == 0x7B8
  {
    Pow2Upper();
    XorStart();
    VersionPolyStep(0xDFFF, 16, 0xF928, 0x26D7);
    XorSecond();
    VersionPolyStep(0x26D7, 14, 0x3E4A, 0x189D);
    XorThird();
    assert Shl(VersionInfoPoly, 0) == 0x1F25;
    VersionPolyStep(0x189D, 13, 0x1F25, 0x07B8);
    BitLengthIs(VersionInfoPoly, 13);
    BitLengthIs(0x7B8, 11);
  }

  /** The intended code of version 7 is 0xC94, the comment's value. */
  lemma VersionSevenIntended()
    ensures IntendedBchCode(7, VersionInfoPoly) == 0xC94
  {
    Pow2Upper();
    BitLengthIs(VersionInfoPoly, 13);
    assert Shl(7, 12) == 0x7000;
    XorIntended();
    VersionPolyStep(0x7000, 15, 0x7C94, 0xC94);
    BitLengthIs(0xC94, 12);
  }
}
