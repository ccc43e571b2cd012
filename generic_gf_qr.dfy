/** The QR code field of ZXGenericGF.swift (`QRCode_Field256`: primitive
    0x011D, that is x^8 + x^4 + x^3 + x^2 + 1, size 256, generator base 0),
    and the proof that its tables make 2 a generator of the whole
    multiplicative group, so that the general lemmas about ProperField
    apply to it. The powers of 2 are followed on eight explicit bits
    (Octet), where one step is a shift and a conditional flip of bits
    4, 3 and 2, and carried back to the integer tables by OctetStep. */
module QRField256 {
  import opened Bits
  import opened GenericGF

  const QRPrimitive := 0x011D
  const QRSize := 256

  /** `f` is the field `QRCode_Field256` denotes. */
  predicate IsQRField(f: GenericGF)
  {
    f.primitive == QRPrimitive && f.size == QRSize && f.generatorBase == 0 && f.Valid()
  }

  /** `ZXGenericGF.QRCode_Field256`. */
  method MakeQRField() returns (f: GenericGF)
    ensures IsQRField(f)
    ensures f.ProperField()
  {
    f := new GenericGF(QRPrimitive, QRSize, 0);
    QRFieldIsProper(f);
  }

  function QRExp(n: nat): nat
  {
    ExpValue(QRPrimitive, QRSize, n)
  }

  type Bit = b: nat | b < 2

  /** A field element as its eight bits, most significant first. */
  datatype Octet = Octet(b7: Bit, b6: Bit, b5: Bit, b4: Bit, b3: Bit, b2: Bit, b1: Bit, b0: Bit)

  /** Bit i of an octet, 0 being the least significant. */
  function Get(o: Octet, i: nat): Bit
    requires i < 8
  {
    match i
    case 0 => o.b0
    case 1 => o.b1
    case 2 => o.b2
    case 3 => o.b3
    case 4 => o.b4
    case 5 => o.b5
    case 6 => o.b6
    case _ => o.b7
  }

  /** The value of bits 7 down to i, read as a number whose lowest bit is bit i. */
  function High(o: Octet, i: nat): nat
    requires i <= 8
    decreases 8 - i
  {
    if i == 8 then 0 else 2 * High(o, i + 1) + Get(o, i)
  }

  function Value(o: Octet): nat
  {
    High(o, 0)
  }

  /** The value written out as a sum of weighted bits. */
  lemma ValueSum(o: Octet)
    ensures Value(o) == 128 * o.b7 + 64 * o.b6 + 32 * o.b5 + 16 * o.b4 + 8 * o.b3 + 4 * o.b2 + 2 * o.b1 + o.b0
  {
    assert High(o, 8) == 0;
    assert High(o, 7) == 2 * High(o, 8) + o.b7;
    assert High(o, 6) == 2 * High(o, 7) + o.b6;
    assert High(o, 5) == 2 * High(o, 6) + o.b5;
    assert High(o, 4) == 2 * High(o, 5) + o.b4;
    assert High(o, 3) == 2 * High(o, 4) + o.b3;
    assert High(o, 2) == 2 * High(o, 3) + o.b2;
    assert High(o, 1) == 2 * High(o, 2) + o.b1;
  }

  /** Equal values of bits 7 down to i agree on bit i and above it. */
  lemma HighBottom(o: Octet, p: Octet, i: nat)
    requires i < 8 && High(o, i) == High(p, i)
    ensures Get(o, i) == Get(p, i) && High(o, i + 1) == High(p, i + 1)
  {
    DivModUnique(High(o, i), 2, High(o, i + 1), Get(o, i));
    DivModUnique(High(p, i), 2, High(p, i + 1), Get(p, i));
  }

  /** Distinct octets have distinct values. */
  lemma ValueInjective(o: Octet, p: Octet)
    requires Value(o) == Value(p)
    ensures o == p
  {
    HighBottom(o, p, 0);
    HighBottom(o, p, 1);
    HighBottom(o, p, 2);
    HighBottom(o, p, 3);
    HighBottom(o, p, 4);
    HighBottom(o, p, 5);
    HighBottom(o, p, 6);
    HighBottom(o, p, 7);
  }

  function BitXor(a: Bit, b: Bit): Bit
  {
    if a == b then 0 else 1
  }

  function OctetXor(o: Octet, p: Octet): Octet
  {
    Octet(BitXor(o.b7, p.b7), BitXor(o.b6, p.b6), BitXor(o.b5, p.b5), BitXor(o.b4, p.b4),
          BitXor(o.b3, p.b3), BitXor(o.b2, p.b2), BitXor(o.b1, p.b1), BitXor(o.b0, p.b0))
  }

  lemma GetXor(o: Octet, p: Octet, i: nat)
    requires i < 8
    ensures Get(OctetXor(o, p), i) == BitXor(Get(o, i), Get(p, i))
  {
  }

  /** On values, OctetXor is NatXor. */
  lemma {:induction false} HighXor(o: Octet, p: Octet, i: nat)
    requires i <= 8
    ensures NatXor(High(o, i), High(p, i)) == High(OctetXor(o, p), i)
    decreases 8 - i
  {
    if i == 8 {
      NatXorZero(0);
    } else {
      HighXor(o, p, i + 1);
      GetXor(o, p, i);
      NatXorSplit(High(o, i), High(p, i), High(o, i + 1), Get(o, i), High(p, i + 1), Get(p, i));
    }
  }

  /** Doubling, and when bit 7 falls out, xor with 0x1D (bits 4, 3, 2 and 0). */
  function OctetStep(x: Octet): Octet
  {
    var t := x.b7;
    Octet(x.b6, x.b5, x.b4, BitXor(x.b3, t), BitXor(x.b2, t), BitXor(x.b1, t), x.b0, t)
  }

  const OctetOne := Octet(0, 0, 0, 0, 0, 0, 0, 1)

  /** The powers of 2 on octets. */
  function OctetExp(n: nat): Octet
  {
    if n == 0 then OctetOne else OctetStep(OctetExp(n - 1))
  }

  /** 142: the primitive 0x11D without its lowest bit, halved. */
  const OctetHalfPrimitive := Octet(1, 0, 0, 0, 1, 1, 1, 0)

  /** With bit 7 set, OctetStep is the xor with 142 moved up one place, plus 1. */
  lemma OctetStepHigh(o: Octet)
    requires o.b7 == 1
    ensures Value(OctetStep(o)) == 2 * Value(OctetXor(o, OctetHalfPrimitive)) + 1
  {
    ValueSum(OctetXor(o, OctetHalfPrimitive));
    ValueSum(OctetStep(o));
  }

  /** With bit 7 set, doubling and xoring in the primitive is OctetStep. */
  lemma OctetXorPrimitive(o: Octet)
    requires o.b7 == 1
    ensures NatXor(2 * Value(o), QRPrimitive) == Value(OctetStep(o))
  {
    var h := OctetHalfPrimitive;
    var v := Value(o);
    assert Value(h) == 142 by {
      ValueSum(h);
    }
    assert NatXor(2 * v, QRPrimitive) == 2 * NatXor(v, Value(h)) + 1 by {
      NatXorSplit(2 * v, QRPrimitive, v, 0, Value(h), 1);
    }
    assert NatXor(v, Value(h)) == Value(OctetXor(o, h)) by {
      HighXor(o, h, 0);
    }
    OctetStepHigh(o);
  }

  /** The table loop's step on a value that overflows the byte. */
  lemma NextPowerHigh(x: nat)
    requires 128 <= x
    ensures NextPower(QRPrimitive, QRSize, x) == And(NatXor(2 * x, QRPrimitive), 255)
  {
  }

  /** The table loop's step on a value that stays within the byte. */
  lemma NextPowerLow(x: nat)
    requires x < 128
    ensures NextPower(QRPrimitive, QRSize, x) == 2 * x
  {
  }

  /** Masking with 255 keeps a byte unchanged. */
  lemma AndByte(r: nat)
    requires r < 256
    ensures And(r, 255) == r
  {
    assert Pow2(8) == 256 by {
      assert Pow2(4) == 16;
    }
    AndLowMask(r, 8);
  }

  /** The masked step of the table loop, read on bits, is OctetStep. */
  lemma OctetStepValue(o: Octet)
    ensures NextPower(QRPrimitive, QRSize, Value(o)) == Value(OctetStep(o))
  {
    var x, r := Value(o), Value(OctetStep(o));
    ValueSum(o);
    ValueSum(OctetStep(o));
    if o.b7 == 1 {
      NextPowerHigh(x);
      OctetXorPrimitive(o);
      AndByte(r);
    } else {
      NextPowerLow(x);
    }
  }

  /** The exponent table of the QR field read on bits. */
  lemma {:induction false} QRExpOctet(n: nat)
    ensures QRExp(n) == Value(OctetExp(n))
  {
    if n == 0 {
      ValueSum(OctetOne);
    } else {
      QRExpOctet(n - 1);
      assert QRExp(n) == NextPower(QRPrimitive, QRSize, QRExp(n - 1));
      OctetStepValue(OctetExp(n - 1));
    }
  }

  lemma StepLemma(n: nat, v: Octet, w: Octet)
    requires OctetExp(n) == v && OctetStep(v) == w
    ensures OctetExp(n + 1) == w
  {
  }


  lemma QRChain0()
    requires OctetExp(0) == Octet(0, 0, 0, 0, 0, 0, 0, 1)
    ensures OctetExp(32) == Octet(1, 0, 0, 1, 1, 1, 0, 1)
    ensures forall k :: 0 < k <= 32 ==> OctetExp(k) != OctetOne
  {
    StepLemma(0, Octet(0, 0, 0, 0, 0, 0, 0, 1), Octet(0, 0, 0, 0, 0, 0, 1, 0));
    StepLemma(1, Octet(0, 0, 0, 0, 0, 0, 1, 0), Octet(0, 0, 0, 0, 0, 1, 0, 0));
    StepLemma(2, Octet(0, 0, 0, 0, 0, 1, 0, 0), Octet(0, 0, 0, 0, 1, 0, 0, 0));
    StepLemma(3, Octet(0, 0, 0, 0, 1, 0, 0, 0), Octet(0, 0, 0, 1, 0, 0, 0, 0));
    StepLemma(4, Octet(0, 0, 0, 1, 0, 0, 0, 0), Octet(0, 0, 1, 0, 0, 0, 0, 0));
    StepLemma(5, Octet(0, 0, 1, 0, 0, 0, 0, 0), Octet(0, 1, 0, 0, 0, 0, 0, 0));
    StepLemma(6, Octet(0, 1, 0, 0, 0, 0, 0, 0), Octet(1, 0, 0, 0, 0, 0, 0, 0));
    StepLemma(7, Octet(1, 0, 0, 0, 0, 0, 0, 0), Octet(0, 0, 0, 1, 1, 1, 0, 1));
    StepLemma(8, Octet(0, 0, 0, 1, 1, 1, 0, 1), Octet(0, 0, 1, 1, 1, 0, 1, 0));
    StepLemma(9, Octet(0, 0, 1, 1, 1, 0, 1, 0), Octet(0, 1, 1, 1, 0, 1, 0, 0));
    StepLemma(10, Octet(0, 1, 1, 1, 0, 1, 0, 0), Octet(1, 1, 1, 0, 1, 0, 0, 0));
    StepLemma(11, Octet(1, 1, 1, 0, 1, 0, 0, 0), Octet(1, 1, 0, 0, 1, 1, 0, 1));
    StepLemma(12, Octet(1, 1, 0, 0, 1, 1, 0, 1), Octet(1, 0, 0, 0, 0, 1, 1, 1));
    StepLemma(13, Octet(1, 0, 0, 0, 0, 1, 1, 1), Octet(0, 0, 0, 1, 0, 0, 1, 1));
    StepLemma(14, Octet(0, 0, 0, 1, 0, 0, 1, 1), Octet(0, 0, 1, 0, 0, 1, 1, 0));
    StepLemma(15, Octet(0, 0, 1, 0, 0, 1, 1, 0), Octet(0, 1, 0, 0, 1, 1, 0, 0));
    StepLemma(16, Octet(0, 1, 0, 0, 1, 1, 0, 0), Octet(1, 0, 0, 1, 1, 0, 0, 0));
    StepLemma(17, Octet(1, 0, 0, 1, 1, 0, 0, 0), Octet(0, 0, 1, 0, 1, 1, 0, 1));
    StepLemma(18, Octet(0, 0, 1, 0, 1, 1, 0, 1), Octet(0, 1, 0, 1, 1, 0, 1, 0));
    StepLemma(19, Octet(0, 1, 0, 1, 1, 0, 1, 0), Octet(1, 0, 1, 1, 0, 1, 0, 0));
    StepLemma(20, Octet(1, 0, 1, 1, 0, 1, 0, 0), Octet(0, 1, 1, 1, 0, 1, 0, 1));
    StepLemma(21, Octet(0, 1, 1, 1, 0, 1, 0, 1), Octet(1, 1, 1, 0, 1, 0, 1, 0));
    StepLemma(22, Octet(1, 1, 1, 0, 1, 0, 1, 0), Octet(1, 1, 0, 0, 1, 0, 0, 1));
    StepLemma(23, Octet(1, 1, 0, 0, 1, 0, 0, 1), Octet(1, 0, 0, 0, 1, 1, 1, 1));
    StepLemma(24, Octet(1, 0, 0, 0, 1, 1, 1, 1), Octet(0, 0, 0, 0, 0, 0, 1, 1));
    StepLemma(25, Octet(0, 0, 0, 0, 0, 0, 1, 1), Octet(0, 0, 0, 0, 0, 1, 1, 0));
    StepLemma(26, Octet(0, 0, 0, 0, 0, 1, 1, 0), Octet(0, 0, 0, 0, 1, 1, 0, 0));
    StepLemma(27, Octet(0, 0, 0, 0, 1, 1, 0, 0), Octet(0, 0, 0, 1, 1, 0, 0, 0));
    StepLemma(28, Octet(0, 0, 0, 1, 1, 0, 0, 0), Octet(0, 0, 1, 1, 0, 0, 0, 0));
    StepLemma(29, Octet(0, 0, 1, 1, 0, 0, 0, 0), Octet(0, 1, 1, 0, 0, 0, 0, 0));
    StepLemma(30, Octet(0, 1, 1, 0, 0, 0, 0, 0), Octet(1, 1, 0, 0, 0, 0, 0, 0));
    StepLemma(31, Octet(1, 1, 0, 0, 0, 0, 0, 0), Octet(1, 0, 0, 1, 1, 1, 0, 1));
    forall k | 0 < k <= 32
      ensures OctetExp(k) != OctetOne
    {
      assert k == 1 || k == 2 || k == 3 || k == 4 || k == 5 || k == 6 || k == 7 || k == 8 || k == 9 || k == 10 || k == 11 || k == 12 || k == 13 || k == 14 || k == 15 || k == 16 || k == 17 || k == 18 || k == 19 || k == 20 || k == 21 || k == 22 || k == 23 || k == 24 || k == 25 || k == 26 || k == 27 || k == 28 || k == 29 || k == 30 || k == 31 || k == 32;
    }
  }

  lemma QRChain32()
    requires OctetExp(32) == Octet(1, 0, 0, 1, 1, 1, 0, 1)
    ensures OctetExp(64) == Octet(0, 1, 0, 1, 1, 1, 1, 1)
    ensures forall k :: 32 < k <= 64 ==> OctetExp(k) != OctetOne
  {
    StepLemma(32, Octet(1, 0, 0, 1, 1, 1, 0, 1), Octet(0, 0, 1, 0, 0, 1, 1, 1));
    StepLemma(33, Octet(0, 0, 1, 0, 0, 1, 1, 1), Octet(0, 1, 0, 0, 1, 1, 1, 0));
    StepLemma(34, Octet(0, 1, 0, 0, 1, 1, 1, 0), Octet(1, 0, 0, 1, 1, 1, 0, 0));
    StepLemma(35, Octet(1, 0, 0, 1, 1, 1, 0, 0), Octet(0, 0, 1, 0, 0, 1, 0, 1));
    StepLemma(36, Octet(0, 0, 1, 0, 0, 1, 0, 1), Octet(0, 1, 0, 0, 1, 0, 1, 0));
    StepLemma(37, Octet(0, 1, 0, 0, 1, 0, 1, 0), Octet(1, 0, 0, 1, 0, 1, 0, 0));
    StepLemma(38, Octet(1, 0, 0, 1, 0, 1, 0, 0), Octet(0, 0, 1, 1, 0, 1, 0, 1));
    StepLemma(39, Octet(0, 0, 1, 1, 0, 1, 0, 1), Octet(0, 1, 1, 0, 1, 0, 1, 0));
    StepLemma(40, Octet(0, 1, 1, 0, 1, 0, 1, 0), Octet(1, 1, 0, 1, 0, 1, 0, 0));
    StepLemma(41, Octet(1, 1, 0, 1, 0, 1, 0, 0), Octet(1, 0, 1, 1, 0, 1, 0, 1));
    StepLemma(42, Octet(1, 0, 1, 1, 0, 1, 0, 1), Octet(0, 1, 1, 1, 0, 1, 1, 1));
    StepLemma(43, Octet(0, 1, 1, 1, 0, 1, 1, 1), Octet(1, 1, 1, 0, 1, 1, 1, 0));
    StepLemma(44, Octet(1, 1, 1, 0, 1, 1, 1, 0), Octet(1, 1, 0, 0, 0, 0, 0, 1));
    StepLemma(45, Octet(1, 1, 0, 0, 0, 0, 0, 1), Octet(1, 0, 0, 1, 1, 1, 1, 1));
    StepLemma(46, Octet(1, 0, 0, 1, 1, 1, 1, 1), Octet(0, 0, 1, 0, 0, 0, 1, 1));
    StepLemma(47, Octet(0, 0, 1, 0, 0, 0, 1, 1), Octet(0, 1, 0, 0, 0, 1, 1, 0));
    StepLemma(48, Octet(0, 1, 0, 0, 0, 1, 1, 0), Octet(1, 0, 0, 0, 1, 1, 0, 0));
    StepLemma(49, Octet(1, 0, 0, 0, 1, 1, 0, 0), Octet(0, 0, 0, 0, 0, 1, 0, 1));
    StepLemma(50, Octet(0, 0, 0, 0, 0, 1, 0, 1), Octet(0, 0, 0, 0, 1, 0, 1, 0));
    StepLemma(51, Octet(0, 0, 0, 0, 1, 0, 1, 0), Octet(0, 0, 0, 1, 0, 1, 0, 0));
    StepLemma(52, Octet(0, 0, 0, 1, 0, 1, 0, 0), Octet(0, 0, 1, 0, 1, 0, 0, 0));
    StepLemma(53, Octet(0, 0, 1, 0, 1, 0, 0, 0), Octet(0, 1, 0, 1, 0, 0, 0, 0));
    StepLemma(54, Octet(0, 1, 0, 1, 0, 0, 0, 0), Octet(1, 0, 1, 0, 0, 0, 0, 0));
    StepLemma(55, Octet(1, 0, 1, 0, 0, 0, 0, 0), Octet(0, 1, 0, 1, 1, 1, 0, 1));
    StepLemma(56, Octet(0, 1, 0, 1, 1, 1, 0, 1), Octet(1, 0, 1, 1, 1, 0, 1, 0));
    StepLemma(57, Octet(1, 0, 1, 1, 1, 0, 1, 0), Octet(0, 1, 1, 0, 1, 0, 0, 1));
    StepLemma(58, Octet(0, 1, 1, 0, 1, 0, 0, 1), Octet(1, 1, 0, 1, 0, 0, 1, 0));
    StepLemma(59, Octet(1, 1, 0, 1, 0, 0, 1, 0), Octet(1, 0, 1, 1, 1, 0, 0, 1));
    StepLemma(60, Octet(1, 0, 1, 1, 1, 0, 0, 1), Octet(0, 1, 1, 0, 1, 1, 1, 1));
    StepLemma(61, Octet(0, 1, 1, 0, 1, 1, 1, 1), Octet(1, 1, 0, 1, 1, 1, 1, 0));
    StepLemma(62, Octet(1, 1, 0, 1, 1, 1, 1, 0), Octet(1, 0, 1, 0, 0, 0, 0, 1));
    StepLemma(63, Octet(1, 0, 1, 0, 0, 0, 0, 1), Octet(0, 1, 0, 1, 1, 1, 1, 1));
    forall k | 32 < k <= 64
      ensures OctetExp(k) != OctetOne
    {
      assert k == 33 || k == 34 || k == 35 || k == 36 || k == 37 || k == 38 || k == 39 || k == 40 || k == 41 || k == 42 || k == 43 || k == 44 || k == 45 || k == 46 || k == 47 || k == 48 || k == 49 || k == 50 || k == 51 || k == 52 || k == 53 || k == 54 || k == 55 || k == 56 || k == 57 || k == 58 || k == 59 || k == 60 || k == 61 || k == 62 || k == 63 || k == 64;
    }
  }

  lemma QRChain64()
    requires OctetExp(64) == Octet(0, 1, 0, 1, 1, 1, 1, 1)
    ensures OctetExp(96) == Octet(1, 1, 0, 1, 1, 0, 0, 1)
    ensures forall k :: 64 < k <= 96 ==> OctetExp(k) != OctetOne
  {
    StepLemma(64, Octet(0, 1, 0, 1, 1, 1, 1, 1), Octet(1, 0, 1, 1, 1, 1, 1, 0));
    StepLemma(65, Octet(1, 0, 1, 1, 1, 1, 1, 0), Octet(0, 1, 1, 0, 0, 0, 0, 1));
    StepLemma(66, Octet(0, 1, 1, 0, 0, 0, 0, 1), Octet(1, 1, 0, 0, 0, 0, 1, 0));
    StepLemma(67, Octet(1, 1, 0, 0, 0, 0, 1, 0), Octet(1, 0, 0, 1, 1, 0, 0, 1));
    StepLemma(68, Octet(1, 0, 0, 1, 1, 0, 0, 1), Octet(0, 0, 1, 0, 1, 1, 1, 1));
    StepLemma(69, Octet(0, 0, 1, 0, 1, 1, 1, 1), Octet(0, 1, 0, 1, 1, 1, 1, 0));
    StepLemma(70, Octet(0, 1, 0, 1, 1, 1, 1, 0), Octet(1, 0, 1, 1, 1, 1, 0, 0));
    StepLemma(71, Octet(1, 0, 1, 1, 1, 1, 0, 0), Octet(0, 1, 1, 0, 0, 1, 0, 1));
    StepLemma(72, Octet(0, 1, 1, 0, 0, 1, 0, 1), Octet(1, 1, 0, 0, 1, 0, 1, 0));
    StepLemma(73, Octet(1, 1, 0, 0, 1, 0, 1, 0), Octet(1, 0, 0, 0, 1, 0, 0, 1));
    StepLemma(74, Octet(1, 0, 0, 0, 1, 0, 0, 1), Octet(0, 0, 0, 0, 1, 1, 1, 1));
    StepLemma(75, Octet(0, 0, 0, 0, 1, 1, 1, 1), Octet(0, 0, 0, 1, 1, 1, 1, 0));
    StepLemma(76, Octet(0, 0, 0, 1, 1, 1, 1, 0), Octet(0, 0, 1, 1, 1, 1, 0, 0));
    StepLemma(77, Octet(0, 0, 1, 1, 1, 1, 0, 0), Octet(0, 1, 1, 1, 1, 0, 0, 0));
    StepLemma(78, Octet(0, 1, 1, 1, 1, 0, 0, 0), Octet(1, 1, 1, 1, 0, 0, 0, 0));
    StepLemma(79, Octet(1, 1, 1, 1, 0, 0, 0, 0), Octet(1, 1, 1, 1, 1, 1, 0, 1));
    StepLemma(80, Octet(1, 1, 1, 1, 1, 1, 0, 1), Octet(1, 1, 1, 0, 0, 1, 1, 1));
    StepLemma(81, Octet(1, 1, 1, 0, 0, 1, 1, 1), Octet(1, 1, 0, 1, 0, 0, 1, 1));
    StepLemma(82, Octet(1, 1, 0, 1, 0, 0, 1, 1), Octet(1, 0, 1, 1, 1, 0, 1, 1));
    StepLemma(83, Octet(1, 0, 1, 1, 1, 0, 1, 1), Octet(0, 1, 1, 0, 1, 0, 1, 1));
    StepLemma(84, Octet(0, 1, 1, 0, 1, 0, 1, 1), Octet(1, 1, 0, 1, 0, 1, 1, 0));
    StepLemma(85, Octet(1, 1, 0, 1, 0, 1, 1, 0), Octet(1, 0, 1, 1, 0, 0, 0, 1));
    StepLemma(86, Octet(1, 0, 1, 1, 0, 0, 0, 1), Octet(0, 1, 1, 1, 1, 1, 1, 1));
    StepLemma(87, Octet(0, 1, 1, 1, 1, 1, 1, 1), Octet(1, 1, 1, 1, 1, 1, 1, 0));
    StepLemma(88, Octet(1, 1, 1, 1, 1, 1, 1, 0), Octet(1, 1, 1, 0, 0, 0, 0, 1));
    StepLemma(89, Octet(1, 1, 1, 0, 0, 0, 0, 1), Octet(1, 1, 0, 1, 1, 1, 1, 1));
    StepLemma(90, Octet(1, 1, 0, 1, 1, 1, 1, 1), Octet(1, 0, 1, 0, 0, 0, 1, 1));
    StepLemma(91, Octet(1, 0, 1, 0, 0, 0, 1, 1), Octet(0, 1, 0, 1, 1, 0, 1, 1));
    StepLemma(92, Octet(0, 1, 0, 1, 1, 0, 1, 1), Octet(1, 0, 1, 1, 0, 1, 1, 0));
    StepLemma(93, Octet(1, 0, 1, 1, 0, 1, 1, 0), Octet(0, 1, 1, 1, 0, 0, 0, 1));
    StepLemma(94, Octet(0, 1, 1, 1, 0, 0, 0, 1), Octet(1, 1, 1, 0, 0, 0, 1, 0));
    StepLemma(95, Octet(1, 1, 1, 0, 0, 0, 1, 0), Octet(1, 1, 0, 1, 1, 0, 0, 1));
    forall k | 64 < k <= 96
      ensures OctetExp(k) != OctetOne
    {
      assert k == 65 || k == 66 || k == 67 || k == 68 || k == 69 || k == 70 || k == 71 || k == 72 || k == 73 || k == 74 || k == 75 || k == 76 || k == 77 || k == 78 || k == 79 || k == 80 || k == 81 || k == 82 || k == 83 || k == 84 || k == 85 || k == 86 || k == 87 || k == 88 || k == 89 || k == 90 || k == 91 || k == 92 || k == 93 || k == 94 || k == 95 || k == 96;
    }
  }

  lemma QRChain96()
    requires OctetExp(96) == Octet(1, 1, 0, 1, 1, 0, 0, 1)
    ensures OctetExp(128) == Octet(1, 0, 0, 0, 0, 1, 0, 1)
    ensures forall k :: 96 < k <= 128 ==> OctetExp(k) != OctetOne
  {
    StepLemma(96, Octet(1, 1, 0, 1, 1, 0, 0, 1), Octet(1, 0, 1, 0, 1, 1, 1, 1));
    StepLemma(97, Octet(1, 0, 1, 0, 1, 1, 1, 1), Octet(0, 1, 0, 0, 0, 0, 1, 1));
    StepLemma(98, Octet(0, 1, 0, 0, 0, 0, 1, 1), Octet(1, 0, 0, 0, 0, 1, 1, 0));
    StepLemma(99, Octet(1, 0, 0, 0, 0, 1, 1, 0), Octet(0, 0, 0, 1, 0, 0, 0, 1));
    StepLemma(100, Octet(0, 0, 0, 1, 0, 0, 0, 1), Octet(0, 0, 1, 0, 0, 0, 1, 0));
    StepLemma(101, Octet(0, 0, 1, 0, 0, 0, 1, 0), Octet(0, 1, 0, 0, 0, 1, 0, 0));
    StepLemma(102, Octet(0, 1, 0, 0, 0, 1, 0, 0), Octet(1, 0, 0, 0, 1, 0, 0, 0));
    StepLemma(103, Octet(1, 0, 0, 0, 1, 0, 0, 0), Octet(0, 0, 0, 0, 1, 1, 0, 1));
    StepLemma(104, Octet(0, 0, 0, 0, 1, 1, 0, 1), Octet(0, 0, 0, 1, 1, 0, 1, 0));
    StepLemma(105, Octet(0, 0, 0, 1, 1, 0, 1, 0), Octet(0, 0, 1, 1, 0, 1, 0, 0));
    StepLemma(106, Octet(0, 0, 1, 1, 0, 1, 0, 0), Octet(0, 1, 1, 0, 1, 0, 0, 0));
    StepLemma(107, Octet(0, 1, 1, 0, 1, 0, 0, 0), Octet(1, 1, 0, 1, 0, 0, 0, 0));
    StepLemma(108, Octet(1, 1, 0, 1, 0, 0, 0, 0), Octet(1, 0, 1, 1, 1, 1, 0, 1));
    StepLemma(109, Octet(1, 0, 1, 1, 1, 1, 0, 1), Octet(0, 1, 1, 0, 0, 1, 1, 1));
    StepLemma(110, Octet(0, 1, 1, 0, 0, 1, 1, 1), Octet(1, 1, 0, 0, 1, 1, 1, 0));
    StepLemma(111, Octet(1, 1, 0, 0, 1, 1, 1, 0), Octet(1, 0, 0, 0, 0, 0, 0, 1));
    StepLemma(112, Octet(1, 0, 0, 0, 0, 0, 0, 1), Octet(0, 0, 0, 1, 1, 1, 1, 1));
    StepLemma(113, Octet(0, 0, 0, 1, 1, 1, 1, 1), Octet(0, 0, 1, 1, 1, 1, 1, 0));
    StepLemma(114, Octet(0, 0, 1, 1, 1, 1, 1, 0), Octet(0, 1, 1, 1, 1, 1, 0, 0));
    StepLemma(115, Octet(0, 1, 1, 1, 1, 1, 0, 0), Octet(1, 1, 1, 1, 1, 0, 0, 0));
    StepLemma(116, Octet(1, 1, 1, 1, 1, 0, 0, 0), Octet(1, 1, 1, 0, 1, 1, 0, 1));
    StepLemma(117, Octet(1, 1, 1, 0, 1, 1, 0, 1), Octet(1, 1, 0, 0, 0, 1, 1, 1));
    StepLemma(118, Octet(1, 1, 0, 0, 0, 1, 1, 1), Octet(1, 0, 0, 1, 0, 0, 1, 1));
    StepLemma(119, Octet(1, 0, 0, 1, 0, 0, 1, 1), Octet(0, 0, 1, 1, 1, 0, 1, 1));
    StepLemma(120, Octet(0, 0, 1, 1, 1, 0, 1, 1), Octet(0, 1, 1, 1, 0, 1, 1, 0));
    StepLemma(121, Octet(0, 1, 1, 1, 0, 1, 1, 0), Octet(1, 1, 1, 0, 1, 1, 0, 0));
    StepLemma(122, Octet(1, 1, 1, 0, 1, 1, 0, 0), Octet(1, 1, 0, 0, 0, 1, 0, 1));
    StepLemma(123, Octet(1, 1, 0, 0, 0, 1, 0, 1), Octet(1, 0, 0, 1, 0, 1, 1, 1));
    StepLemma(124, Octet(1, 0, 0, 1, 0, 1, 1, 1), Octet(0, 0, 1, 1, 0, 0, 1, 1));
    StepLemma(125, Octet(0, 0, 1, 1, 0, 0, 1, 1), Octet(0, 1, 1, 0, 0, 1, 1, 0));
    StepLemma(126, Octet(0, 1, 1, 0, 0, 1, 1, 0), Octet(1, 1, 0, 0, 1, 1, 0, 0));
    StepLemma(127, Octet(1, 1, 0, 0, 1, 1, 0, 0), Octet(1, 0, 0, 0, 0, 1, 0, 1));
    forall k | 96 < k <= 128
      ensures OctetExp(k) != OctetOne
    {
      assert k == 97 || k == 98 || k == 99 || k == 100 || k == 101 || k == 102 || k == 103 || k == 104 || k == 105 || k == 106 || k == 107 || k == 108 || k == 109 || k == 110 || k == 111 || k == 112 || k == 113 || k == 114 || k == 115 || k == 116 || k == 117 || k == 118 || k == 119 || k == 120 || k == 121 || k == 122 || k == 123 || k == 124 || k == 125 || k == 126 || k == 127 || k == 128;
    }
  }

  lemma QRChain128()
    requires OctetExp(128) == Octet(1, 0, 0, 0, 0, 1, 0, 1)
    ensures OctetExp(160) == Octet(1, 1, 1, 0, 0, 1, 1, 0)
    ensures forall k :: 128 < k <= 160 ==> OctetExp(k) != OctetOne
  {
    StepLemma(128, Octet(1, 0, 0, 0, 0, 1, 0, 1), Octet(0, 0, 0, 1, 0, 1, 1, 1));
    StepLemma(129, Octet(0, 0, 0, 1, 0, 1, 1, 1), Octet(0, 0, 1, 0, 1, 1, 1, 0));
    StepLemma(130, Octet(0, 0, 1, 0, 1, 1, 1, 0), Octet(0, 1, 0, 1, 1, 1, 0, 0));
    StepLemma(131, Octet(0, 1, 0, 1, 1, 1, 0, 0), Octet(1, 0, 1, 1, 1, 0, 0, 0));
    StepLemma(132, Octet(1, 0, 1, 1, 1, 0, 0, 0), Octet(0, 1, 1, 0, 1, 1, 0, 1));
    StepLemma(133, Octet(0, 1, 1, 0, 1, 1, 0, 1), Octet(1, 1, 0, 1, 1, 0, 1, 0));
    StepLemma(134, Octet(1, 1, 0, 1, 1, 0, 1, 0), Octet(1, 0, 1, 0, 1, 0, 0, 1));
    StepLemma(135, Octet(1, 0, 1, 0, 1, 0, 0, 1), Octet(0, 1, 0, 0, 1, 1, 1, 1));
    StepLemma(136, Octet(0, 1, 0, 0, 1, 1, 1, 1), Octet(1, 0, 0, 1, 1, 1, 1, 0));
    StepLemma(137, Octet(1, 0, 0, 1, 1, 1, 1, 0), Octet(0, 0, 1, 0, 0, 0, 0, 1));
    StepLemma(138, Octet(0, 0, 1, 0, 0, 0, 0, 1), Octet(0, 1, 0, 0, 0, 0, 1, 0));
    StepLemma(139, Octet(0, 1, 0, 0, 0, 0, 1, 0), Octet(1, 0, 0, 0, 0, 1, 0, 0));
    StepLemma(140, Octet(1, 0, 0, 0, 0, 1, 0, 0), Octet(0, 0, 0, 1, 0, 1, 0, 1));
    StepLemma(141, Octet(0, 0, 0, 1, 0, 1, 0, 1), Octet(0, 0, 1, 0, 1, 0, 1, 0));
    StepLemma(142, Octet(0, 0, 1, 0, 1, 0, 1, 0), Octet(0, 1, 0, 1, 0, 1, 0, 0));
    StepLemma(143, Octet(0, 1, 0, 1, 0, 1, 0, 0), Octet(1, 0, 1, 0, 1, 0, 0, 0));
    StepLemma(144, Octet(1, 0, 1, 0, 1, 0, 0, 0), Octet(0, 1, 0, 0, 1, 1, 0, 1));
    StepLemma(145, Octet(0, 1, 0, 0, 1, 1, 0, 1), Octet(1, 0, 0, 1, 1, 0, 1, 0));
    StepLemma(146, Octet(1, 0, 0, 1, 1, 0, 1, 0), Octet(0, 0, 1, 0, 1, 0, 0, 1));
    StepLemma(147, Octet(0, 0, 1, 0, 1, 0, 0, 1), Octet(0, 1, 0, 1, 0, 0, 1, 0));
    StepLemma(148, Octet(0, 1, 0, 1, 0, 0, 1, 0), Octet(1, 0, 1, 0, 0, 1, 0, 0));
    StepLemma(149, Octet(1, 0, 1, 0, 0, 1, 0, 0), Octet(0, 1, 0, 1, 0, 1, 0, 1));
    StepLemma(150, Octet(0, 1, 0, 1, 0, 1, 0, 1), Octet(1, 0, 1, 0, 1, 0, 1, 0));
    StepLemma(151, Octet(1, 0, 1, 0, 1, 0, 1, 0), Octet(0, 1, 0, 0, 1, 0, 0, 1));
    StepLemma(152, Octet(0, 1, 0, 0, 1, 0, 0, 1), Octet(1, 0, 0, 1, 0, 0, 1, 0));
    StepLemma(153, Octet(1, 0, 0, 1, 0, 0, 1, 0), Octet(0, 0, 1, 1, 1, 0, 0, 1));
    StepLemma(154, Octet(0, 0, 1, 1, 1, 0, 0, 1), Octet(0, 1, 1, 1, 0, 0, 1, 0));
    StepLemma(155, Octet(0, 1, 1, 1, 0, 0, 1, 0), Octet(1, 1, 1, 0, 0, 1, 0, 0));
    StepLemma(156, Octet(1, 1, 1, 0, 0, 1, 0, 0), Octet(1, 1, 0, 1, 0, 1, 0, 1));
    StepLemma(157, Octet(1, 1, 0, 1, 0, 1, 0, 1), Octet(1, 0, 1, 1, 0, 1, 1, 1));
    StepLemma(158, Octet(1, 0, 1, 1, 0, 1, 1, 1), Octet(0, 1, 1, 1, 0, 0, 1, 1));
    StepLemma(159, Octet(0, 1, 1, 1, 0, 0, 1, 1), Octet(1, 1, 1, 0, 0, 1, 1, 0));
    forall k | 128 < k <= 160
      ensures OctetExp(k) != OctetOne
    {
      assert k == 129 || k == 130 || k == 131 || k == 132 || k == 133 || k == 134 || k == 135 || k == 136 || k == 137 || k == 138 || k == 139 || k == 140 || k == 141 || k == 142 || k == 143 || k == 144 || k == 145 || k == 146 || k == 147 || k == 148 || k == 149 || k == 150 || k == 151 || k == 152 || k == 153 || k == 154 || k == 155 || k == 156 || k == 157 || k == 158 || k == 159 || k == 160;
    }
  }

  lemma QRChain160()
    requires OctetExp(160) == Octet(1, 1, 1, 0, 0, 1, 1, 0)
    ensures OctetExp(192) == Octet(1, 0, 0, 0, 0, 0, 1, 0)
    ensures forall k :: 160 < k <= 192 ==> OctetExp(k) != OctetOne
  {
    StepLemma(160, Octet(1, 1, 1, 0, 0, 1, 1, 0), Octet(1, 1, 0, 1, 0, 0, 0, 1));
    StepLemma(161, Octet(1, 1, 0, 1, 0, 0, 0, 1), Octet(1, 0, 1, 1, 1, 1, 1, 1));
    StepLemma(162, Octet(1, 0, 1, 1, 1, 1, 1, 1), Octet(0, 1, 1, 0, 0, 0, 1, 1));
    StepLemma(163, Octet(0, 1, 1, 0, 0, 0, 1, 1), Octet(1, 1, 0, 0, 0, 1, 1, 0));
    StepLemma(164, Octet(1, 1, 0, 0, 0, 1, 1, 0), Octet(1, 0, 0, 1, 0, 0, 0, 1));
    StepLemma(165, Octet(1, 0, 0, 1, 0, 0, 0, 1), Octet(0, 0, 1, 1, 1, 1, 1, 1));
    StepLemma(166, Octet(0, 0, 1, 1, 1, 1, 1, 1), Octet(0, 1, 1, 1, 1, 1, 1, 0));
    StepLemma(167, Octet(0, 1, 1, 1, 1, 1, 1, 0), Octet(1, 1, 1, 1, 1, 1, 0, 0));
    StepLemma(168, Octet(1, 1, 1, 1, 1, 1, 0, 0), Octet(1, 1, 1, 0, 0, 1, 0, 1));
    StepLemma(169, Octet(1, 1, 1, 0, 0, 1, 0, 1), Octet(1, 1, 0, 1, 0, 1, 1, 1));
    StepLemma(170, Octet(1, 1, 0, 1, 0, 1, 1, 1), Octet(1, 0, 1, 1, 0, 0, 1, 1));
    StepLemma(171, Octet(1, 0, 1, 1, 0, 0, 1, 1), Octet(0, 1, 1, 1, 1, 0, 1, 1));
    StepLemma(172, Octet(0, 1, 1, 1, 1, 0, 1, 1), Octet(1, 1, 1, 1, 0, 1, 1, 0));
    StepLemma(173, Octet(1, 1, 1, 1, 0, 1, 1, 0), Octet(1, 1, 1, 1, 0, 0, 0, 1));
    StepLemma(174, Octet(1, 1, 1, 1, 0, 0, 0, 1), Octet(1, 1, 1, 1, 1, 1, 1, 1));
    StepLemma(175, Octet(1, 1, 1, 1, 1, 1, 1, 1), Octet(1, 1, 1, 0, 0, 0, 1, 1));
    StepLemma(176, Octet(1, 1, 1, 0, 0, 0, 1, 1), Octet(1, 1, 0, 1, 1, 0, 1, 1));
    StepLemma(177, Octet(1, 1, 0, 1, 1, 0, 1, 1), Octet(1, 0, 1, 0, 1, 0, 1, 1));
    StepLemma(178, Octet(1, 0, 1, 0, 1, 0, 1, 1), Octet(0, 1, 0, 0, 1, 0, 1, 1));
    StepLemma(179, Octet(0, 1, 0, 0, 1, 0, 1, 1), Octet(1, 0, 0, 1, 0, 1, 1, 0));
    StepLemma(180, Octet(1, 0, 0, 1, 0, 1, 1, 0), Octet(0, 0, 1, 1, 0, 0, 0, 1));
    StepLemma(181, Octet(0, 0, 1, 1, 0, 0, 0, 1), Octet(0, 1, 1, 0, 0, 0, 1, 0));
    StepLemma(182, Octet(0, 1, 1, 0, 0, 0, 1, 0), Octet(1, 1, 0, 0, 0, 1, 0, 0));
    StepLemma(183, Octet(1, 1, 0, 0, 0, 1, 0, 0), Octet(1, 0, 0, 1, 0, 1, 0, 1));
    StepLemma(184, Octet(1, 0, 0, 1, 0, 1, 0, 1), Octet(0, 0, 1, 1, 0, 1, 1, 1));
    StepLemma(185, Octet(0, 0, 1, 1, 0, 1, 1, 1), Octet(0, 1, 1, 0, 1, 1, 1, 0));
    StepLemma(186, Octet(0, 1, 1, 0, 1, 1, 1, 0), Octet(1, 1, 0, 1, 1, 1, 0, 0));
    StepLemma(187, Octet(1, 1, 0, 1, 1, 1, 0, 0), Octet(1, 0, 1, 0, 0, 1, 0, 1));
    StepLemma(188, Octet(1, 0, 1, 0, 0, 1, 0, 1), Octet(0, 1, 0, 1, 0, 1, 1, 1));
    StepLemma(189, Octet(0, 1, 0, 1, 0, 1, 1, 1), Octet(1, 0, 1, 0, 1, 1, 1, 0));
    StepLemma(190, Octet(1, 0, 1, 0, 1, 1, 1, 0), Octet(0, 1, 0, 0, 0, 0, 0, 1));
    StepLemma(191, Octet(0, 1, 0, 0, 0, 0, 0, 1), Octet(1, 0, 0, 0, 0, 0, 1, 0));
    forall k | 160 < k <= 192
      ensures OctetExp(k) != OctetOne
    {
      assert k == 161 || k == 162 || k == 163 || k == 164 || k == 165 || k == 166 || k == 167 || k == 168 || k == 169 || k == 170 || k == 171 || k == 172 || k == 173 || k == 174 || k == 175 || k == 176 || k == 177 || k == 178 || k == 179 || k == 180 || k == 181 || k == 182 || k == 183 || k == 184 || k == 185 || k == 186 || k == 187 || k == 188 || k == 189 || k == 190 || k == 191 || k == 192;
    }
  }

  lemma QRChain192()
    requires OctetExp(192) == Octet(1, 0, 0, 0, 0, 0, 1, 0)
    ensures OctetExp(224) == Octet(0, 0, 0, 1, 0, 0, 1, 0)
    ensures forall k :: 192 < k <= 224 ==> OctetExp(k) != OctetOne
  {
    StepLemma(192, Octet(1, 0, 0, 0, 0, 0, 1, 0), Octet(0, 0, 0, 1, 1, 0, 0, 1));
    StepLemma(193, Octet(0, 0, 0, 1, 1, 0, 0, 1), Octet(0, 0, 1, 1, 0, 0, 1, 0));
    StepLemma(194, Octet(0, 0, 1, 1, 0, 0, 1, 0), Octet(0, 1, 1, 0, 0, 1, 0, 0));
    StepLemma(195, Octet(0, 1, 1, 0, 0, 1, 0, 0), Octet(1, 1, 0, 0, 1, 0, 0, 0));
    StepLemma(196, Octet(1, 1, 0, 0, 1, 0, 0, 0), Octet(1, 0, 0, 0, 1, 1, 0, 1));
    StepLemma(197, Octet(1, 0, 0, 0, 1, 1, 0, 1), Octet(0, 0, 0, 0, 0, 1, 1, 1));
    StepLemma(198, Octet(0, 0, 0, 0, 0, 1, 1, 1), Octet(0, 0, 0, 0, 1, 1, 1, 0));
    StepLemma(199, Octet(0, 0, 0, 0, 1, 1, 1, 0), Octet(0, 0, 0, 1, 1, 1, 0, 0));
    StepLemma(200, Octet(0, 0, 0, 1, 1, 1, 0, 0), Octet(0, 0, 1, 1, 1, 0, 0, 0));
    StepLemma(201, Octet(0, 0, 1, 1, 1, 0, 0, 0), Octet(0, 1, 1, 1, 0, 0, 0, 0));
    StepLemma(202, Octet(0, 1, 1, 1, 0, 0, 0, 0), Octet(1, 1, 1, 0, 0, 0, 0, 0));
    StepLemma(203, Octet(1, 1, 1, 0, 0, 0, 0, 0), Octet(1, 1, 0, 1, 1, 1, 0, 1));
    StepLemma(204, Octet(1, 1, 0, 1, 1, 1, 0, 1), Octet(1, 0, 1, 0, 0, 1, 1, 1));
    StepLemma(205, Octet(1, 0, 1, 0, 0, 1, 1, 1), Octet(0, 1, 0, 1, 0, 0, 1, 1));
    StepLemma(206, Octet(0, 1, 0, 1, 0, 0, 1, 1), Octet(1, 0, 1, 0, 0, 1, 1, 0));
    StepLemma(207, Octet(1, 0, 1, 0, 0, 1, 1, 0), Octet(0, 1, 0, 1, 0, 0, 0, 1));
    StepLemma(208, Octet(0, 1, 0, 1, 0, 0, 0, 1), Octet(1, 0, 1, 0, 0, 0, 1, 0));
    StepLemma(209, Octet(1, 0, 1, 0, 0, 0, 1, 0), Octet(0, 1, 0, 1, 1, 0, 0, 1));
    StepLemma(210, Octet(0, 1, 0, 1, 1, 0, 0, 1), Octet(1, 0, 1, 1, 0, 0, 1, 0));
    StepLemma(211, Octet(1, 0, 1, 1, 0, 0, 1, 0), Octet(0, 1, 1, 1, 1, 0, 0, 1));
    StepLemma(212, Octet(0, 1, 1, 1, 1, 0, 0, 1), Octet(1, 1, 1, 1, 0, 0, 1, 0));
    StepLemma(213, Octet(1, 1, 1, 1, 0, 0, 1, 0), Octet(1, 1, 1, 1, 1, 0, 0, 1));
    StepLemma(214, Octet(1, 1, 1, 1, 1, 0, 0, 1), Octet(1, 1, 1, 0, 1, 1, 1, 1));
    StepLemma(215, Octet(1, 1, 1, 0, 1, 1, 1, 1), Octet(1, 1, 0, 0, 0, 0, 1, 1));
    StepLemma(216, Octet(1, 1, 0, 0, 0, 0, 1, 1), Octet(1, 0, 0, 1, 1, 0, 1, 1));
    StepLemma(217, Octet(1, 0, 0, 1, 1, 0, 1, 1), Octet(0, 0, 1, 0, 1, 0, 1, 1));
    StepLemma(218, Octet(0, 0, 1, 0, 1, 0, 1, 1), Octet(0, 1, 0, 1, 0, 1, 1, 0));
    StepLemma(219, Octet(0, 1, 0, 1, 0, 1, 1, 0), Octet(1, 0, 1, 0, 1, 1, 0, 0));
    StepLemma(220, Octet(1, 0, 1, 0, 1, 1, 0, 0), Octet(0, 1, 0, 0, 0, 1, 0, 1));
    StepLemma(221, Octet(0, 1, 0, 0, 0, 1, 0, 1), Octet(1, 0, 0, 0, 1, 0, 1, 0));
    StepLemma(222, Octet(1, 0, 0, 0, 1, 0, 1, 0), Octet(0, 0, 0, 0, 1, 0, 0, 1));
    StepLemma(223, Octet(0, 0, 0, 0, 1, 0, 0, 1), Octet(0, 0, 0, 1, 0, 0, 1, 0));
    forall k | 192 < k <= 224
      ensures OctetExp(k) != OctetOne
    {
      assert k == 193 || k == 194 || k == 195 || k == 196 || k == 197 || k == 198 || k == 199 || k == 200 || k == 201 || k == 202 || k == 203 || k == 204 || k == 205 || k == 206 || k == 207 || k == 208 || k == 209 || k == 210 || k == 211 || k == 212 || k == 213 || k == 214 || k == 215 || k == 216 || k == 217 || k == 218 || k == 219 || k == 220 || k == 221 || k == 222 || k == 223 || k == 224;
    }
  }

  lemma QRChain224()
    requires OctetExp(224) == Octet(0, 0, 0, 1, 0, 0, 1, 0)
    ensures OctetExp(255) == Octet(0, 0, 0, 0, 0, 0, 0, 1)
    ensures forall k :: 224 < k <= 254 ==> OctetExp(k) != OctetOne
  {
    StepLemma(224, Octet(0, 0, 0, 1, 0, 0, 1, 0), Octet(0, 0, 1, 0, 0, 1, 0, 0));
    StepLemma(225, Octet(0, 0, 1, 0, 0, 1, 0, 0), Octet(0, 1, 0, 0, 1, 0, 0, 0));
    StepLemma(226, Octet(0, 1, 0, 0, 1, 0, 0, 0), Octet(1, 0, 0, 1, 0, 0, 0, 0));
    StepLemma(227, Octet(1, 0, 0, 1, 0, 0, 0, 0), Octet(0, 0, 1, 1, 1, 1, 0, 1));
    StepLemma(228, Octet(0, 0, 1, 1, 1, 1, 0, 1), Octet(0, 1, 1, 1, 1, 0, 1, 0));
    StepLemma(229, Octet(0, 1, 1, 1, 1, 0, 1, 0), Octet(1, 1, 1, 1, 0, 1, 0, 0));
    StepLemma(230, Octet(1, 1, 1, 1, 0, 1, 0, 0), Octet(1, 1, 1, 1, 0, 1, 0, 1));
    StepLemma(231, Octet(1, 1, 1, 1, 0, 1, 0, 1), Octet(1, 1, 1, 1, 0, 1, 1, 1));
    StepLemma(232, Octet(1, 1, 1, 1, 0, 1, 1, 1), Octet(1, 1, 1, 1, 0, 0, 1, 1));
    StepLemma(233, Octet(1, 1, 1, 1, 0, 0, 1, 1), Octet(1, 1, 1, 1, 1, 0, 1, 1));
    StepLemma(234, Octet(1, 1, 1, 1, 1, 0, 1, 1), Octet(1, 1, 1, 0, 1, 0, 1, 1));
    StepLemma(235, Octet(1, 1, 1, 0, 1, 0, 1, 1), Octet(1, 1, 0, 0, 1, 0, 1, 1));
    StepLemma(236, Octet(1, 1, 0, 0, 1, 0, 1, 1), Octet(1, 0, 0, 0, 1, 0, 1, 1));
    StepLemma(237, Octet(1, 0, 0, 0, 1, 0, 1, 1), Octet(0, 0, 0, 0, 1, 0, 1, 1));
    StepLemma(238, Octet(0, 0, 0, 0, 1, 0, 1, 1), Octet(0, 0, 0, 1, 0, 1, 1, 0));
    StepLemma(239, Octet(0, 0, 0, 1, 0, 1, 1, 0), Octet(0, 0, 1, 0, 1, 1, 0, 0));
    StepLemma(240, Octet(0, 0, 1, 0, 1, 1, 0, 0), Octet(0, 1, 0, 1, 1, 0, 0, 0));
    StepLemma(241, Octet(0, 1, 0, 1, 1, 0, 0, 0), Octet(1, 0, 1, 1, 0, 0, 0, 0));
    StepLemma(242, Octet(1, 0, 1, 1, 0, 0, 0, 0), Octet(0, 1, 1, 1, 1, 1, 0, 1));
    StepLemma(243, Octet(0, 1, 1, 1, 1, 1, 0, 1), Octet(1, 1, 1, 1, 1, 0, 1, 0));
    StepLemma(244, Octet(1, 1, 1, 1, 1, 0, 1, 0), Octet(1, 1, 1, 0, 1, 0, 0, 1));
    StepLemma(245, Octet(1, 1, 1, 0, 1, 0, 0, 1), Octet(1, 1, 0, 0, 1, 1, 1, 1));
    StepLemma(246, Octet(1, 1, 0, 0, 1, 1, 1, 1), Octet(1, 0, 0, 0, 0, 0, 1, 1));
    StepLemma(247, Octet(1, 0, 0, 0, 0, 0, 1, 1), Octet(0, 0, 0, 1, 1, 0, 1, 1));
    StepLemma(248, Octet(0, 0, 0, 1, 1, 0, 1, 1), Octet(0, 0, 1, 1, 0, 1, 1, 0));
    StepLemma(249, Octet(0, 0, 1, 1, 0, 1, 1, 0), Octet(0, 1, 1, 0, 1, 1, 0, 0));
    StepLemma(250, Octet(0, 1, 1, 0, 1, 1, 0, 0), Octet(1, 1, 0, 1, 1, 0, 0, 0));
    StepLemma(251, Octet(1, 1, 0, 1, 1, 0, 0, 0), Octet(1, 0, 1, 0, 1, 1, 0, 1));
    StepLemma(252, Octet(1, 0, 1, 0, 1, 1, 0, 1), Octet(0, 1, 0, 0, 0, 1, 1, 1));
    StepLemma(253, Octet(0, 1, 0, 0, 0, 1, 1, 1), Octet(1, 0, 0, 0, 1, 1, 1, 0));
    StepLemma(254, Octet(1, 0, 0, 0, 1, 1, 1, 0), Octet(0, 0, 0, 0, 0, 0, 0, 1));
    forall k | 224 < k <= 254
      ensures OctetExp(k) != OctetOne
    {
      assert k == 225 || k == 226 || k == 227 || k == 228 || k == 229 || k == 230 || k == 231 || k == 232 || k == 233 || k == 234 || k == 235 || k == 236 || k == 237 || k == 238 || k == 239 || k == 240 || k == 241 || k == 242 || k == 243 || k == 244 || k == 245 || k == 246 || k == 247 || k == 248 || k == 249 || k == 250 || k == 251 || k == 252 || k == 253 || k == 254;
    }
  }

  /** 2 has order exactly 255 among the octets. */
  lemma OctetOrder()
    ensures OctetExp(255) == OctetOne
    ensures forall k :: 0 < k < 255 ==> OctetExp(k) != OctetOne
  {
    QRChain0();
    QRChain32();
    QRChain64();
    QRChain96();
    QRChain128();
    QRChain160();
    QRChain192();
    QRChain224();
  }

  /** 2 has order exactly 255 in the QR field: 2^255 == 1 and no smaller
      positive power is 1. */
  lemma QROrder()
    ensures QRExp(255) == 1
    ensures forall k :: 0 < k < 255 ==> QRExp(k) != 1
  {
    OctetOrder();
    ValueSum(OctetOne);
    forall k | 0 <= k <= 255
      ensures QRExp(k) == 1 <==> OctetExp(k) == OctetOne
    {
      QRExpOctet(k);
      if QRExp(k) == 1 {
        ValueInjective(OctetExp(k), OctetOne);
      }
    }
  }

  /** No power of 2 is 0. */
  lemma {:induction false} QRExpNonzero(n: nat)
    ensures QRExp(n) != 0
  {
    if n > 0 {
      QRExpNonzero(n - 1);
    }
    QRExpOctet(n);
    if n > 0 {
      QRExpOctet(n - 1);
    }
  }

  lemma QRExpInjective(i: nat, j: nat)
    requires QRExp(i) == QRExp(j)
    ensures OctetExp(i) == OctetExp(j)
  {
    QRExpOctet(i);
    QRExpOctet(j);
    ValueInjective(OctetExp(i), OctetExp(j));
  }

  /** Equal powers shift down: 2^i == 2^j gives 2^(j - i) == 1. */
  lemma {:induction false} OctetExpShift(i: nat, j: nat)
    requires i <= j && OctetExp(i) == OctetExp(j)
    ensures OctetExp(j - i) == OctetOne
    decreases i
  {
    if i > 0 {
      OctetExpShift(i - 1, j - 1);
    }
  }

  /** The first 255 powers of 2 are distinct. */
  lemma QRExpDistinct(i: nat, j: nat)
    requires i < j < 255
    ensures QRExp(i) != QRExp(j)
  {
    if QRExp(i) == QRExp(j) {
      QRExpInjective(i, j);
      OctetExpShift(i, j);
      OctetOrder();
      assert false;
    }
  }

  function Image(s: seq<int>, n: nat): set<int>
    requires n <= |s|
  {
    set i | 0 <= i < n :: s[i]
  }

  lemma {:induction false} ImageCard(s: seq<int>, n: nat)
    requires n <= |s|
    requires forall i, j :: 0 <= i < j < n ==> s[i] != s[j]
    ensures |Image(s, n)| == n
  {
    if n > 0 {
      ImageCard(s, n - 1);
      assert Image(s, n) == Image(s, n - 1) + {s[n - 1]};
    }
  }

  /** The integers lo, ..., hi - 1. */
  function Range(lo: int, hi: int): set<int>
    decreases hi - lo
  {
    if lo >= hi then {} else Range(lo, hi - 1) + {hi - 1}
  }

  lemma {:induction false} RangeFacts(lo: int, hi: int)
    requires lo <= hi
    ensures |Range(lo, hi)| == hi - lo
    ensures forall v :: v in Range(lo, hi) <==> lo <= v < hi
    decreases hi - lo
  {
    if lo < hi {
      RangeFacts(lo, hi - 1);
    }
  }

  /** A subset as large as a finite set is the whole set. */
  lemma SubsetCardEqual(a: set<int>, b: set<int>)
    requires a <= b && |a| == |b|
    ensures a == b
  {
    assert b == a + (b - a);
  }

  /** The exponent table of the QR field: nonzero entries, the first 255 distinct. */
  lemma QRTable(f: GenericGF)
    requires IsQRField(f)
    ensures forall i :: 0 <= i < 256 ==> f.exponentTable[i] == QRExp(i) != 0
    ensures forall i, j :: 0 <= i < j < 255 ==> f.exponentTable[i] != f.exponentTable[j]
  {
    forall i | 0 <= i < 256
      ensures f.exponentTable[i] == QRExp(i) != 0
    {
      QRExpNonzero(i);
    }
    forall i, j | 0 <= i < j < 255
      ensures f.exponentTable[i] != f.exponentTable[j]
    {
      QRExpDistinct(i, j);
    }
  }

  /** Every nonzero element is one of the first 255 powers (pigeonhole). */
  lemma QRTableOnto(f: GenericGF, v: int)
    requires IsQRField(f) && 1 <= v < 256
    ensures v in Image(f.exponentTable, 255)
  {
    QRTable(f);
    QRTableNonzero(f);
    ImageCovers(f.exponentTable, 255, 1, 256);
  }

  /** n distinct entries, all in [lo, hi), with n == hi - lo, take every
      value of [lo, hi). */
  lemma ImageCovers(s: seq<int>, n: nat, lo: int, hi: int)
    requires n <= |s| && n == hi - lo
    requires forall i, j :: 0 <= i < j < n ==> s[i] != s[j]
    requires forall i :: 0 <= i < n ==> lo <= s[i] < hi
    ensures forall v :: lo <= v < hi ==> v in Image(s, n)
  {
    ImageCard(s, n);
    RangeFacts(lo, hi);
    assert Image(s, n) <= Range(lo, hi);
    SubsetCardEqual(Image(s, n), Range(lo, hi));
  }

  /** The exponent table holds nonzero bytes. */
  lemma QRTableNonzero(f: GenericGF)
    requires IsQRField(f)
    ensures forall i :: 0 <= i < 256 ==> 0 < f.exponentTable[i] < 256
  {
    QRTable(f);
  }

  /** The QR field's tables satisfy ProperField. */
  lemma QRFieldIsProper(f: GenericGF)
    requires IsQRField(f)
    ensures f.ProperField()
  {
    var exp := f.exponentTable;
    QRTable(f);
    LogTableInverts(exp, 256, 255);
    forall v | 1 <= v < 256
      ensures exp[f.logarithmTable[v]] == v
    {
      QRTableOnto(f, v);
    }
    QROrder();
    XorByte();
  }

  /** Xor of two bytes is a byte. */
  lemma XorByte()
    ensures forall a, b :: 0 <= a < 256 && 0 <= b < 256 ==> 0 <= Xor(a, b) < 256
  {
    assert Pow2(8) == 256 by {
      assert Pow2(4) == 16;
    }
    forall a, b | 0 <= a < 256 && 0 <= b < 256
      ensures 0 <= Xor(a, b) < 256
    {
      XorBound(a, b, 8);
    }
  }

  // ---------------------------------------------------------------------
  // Distributivity

  /** One step (multiplication by 2) is linear over xor. */
  lemma StepXor(o: Octet, p: Octet)
    ensures OctetStep(OctetXor(o, p)) == OctetXor(OctetStep(o), OctetStep(p))
  {
  }

  /** k steps: multiplication by 2^k. */
  function Steps(o: Octet, k: nat): Octet
  {
    if k == 0 then o else OctetStep(Steps(o, k - 1))
  }

  /** Multiplication by 2^k is linear over xor. */
  lemma {:induction false} StepsXor(o: Octet, p: Octet, k: nat)
    ensures Steps(OctetXor(o, p), k) == OctetXor(Steps(o, k), Steps(p, k))
  {
    if k > 0 {
      StepsXor(o, p, k - 1);
      StepXor(Steps(o, k - 1), Steps(p, k - 1));
    }
  }

  /** 2^(i + k) is 2^i multiplied by 2 k times. */
  lemma {:induction false} OctetExpAdd(i: nat, k: nat)
    ensures OctetExp(i + k) == Steps(OctetExp(i), k)
  {
    if k > 0 {
      OctetExpAdd(i, k - 1);
    }
  }

  /** Exponents below twice the order may be reduced modulo 255. */
  lemma OctetExpWrap(n: nat)
    requires n < 510
    ensures OctetExp(n % 255) == OctetExp(n)
  {
    if n >= 255 {
      OctetOrder();
      OctetExpAdd(255, n - 255);
      OctetExpAdd(0, n - 255);
      assert n % 255 == n - 255;
    }
  }

  /** A nonzero element is the power of 2 its logarithm names. */
  lemma ElementOctet(f: GenericGF, v: int)
    requires IsQRField(f) && f.ProperField() && 1 <= v < 256
    ensures 0 <= f.logarithmTable[v] < 255 && v == Value(OctetExp(f.logarithmTable[v]))
  {
    var l := f.logarithmTable[v];
    assert f.exponentTable[l] == v;
    assert f.exponentTable[l] == ExpValue(f.primitive, f.size, l);
    QRExpOctet(l);
  }

  /** The table product of two nonzero elements is the second one's bits
      multiplied by 2 as often as the first one's logarithm says. */
  lemma MultiplyOctet(f: GenericGF, a: int, v: int)
    requires IsQRField(f) && f.ProperField() && 1 <= a < 256 && 1 <= v < 256
    ensures f.Multiply(a, v) == Value(Steps(OctetExp(f.logarithmTable[v]), f.logarithmTable[a]))
  {
    var la, lv := f.logarithmTable[a], f.logarithmTable[v];
    var n := lv + la;
    assert f.Multiply(a, v) == f.exponentTable[n % 255];
    assert f.exponentTable[n % 255] == ExpValue(f.primitive, f.size, n % 255);
    QRExpOctet(n % 255);
    OctetExpWrap(n);
    OctetExpAdd(lv, la);
  }

  /** Distributivity at one triple of elements. */
  lemma DistributeAt(f: GenericGF, a: int, b: int, c: int)
    requires IsQRField(f) && f.ProperField()
    requires 0 <= a < 256 && 0 <= b < 256 && 0 <= c < 256
    ensures f.Multiply(a, Xor(b, c)) == Xor(f.Multiply(a, b), f.Multiply(a, c))
  {
    var d := Xor(b, c);
    if a == 0 {
      XorZero(0);
    } else if b == 0 {
      XorZero(c);
      XorZero(f.Multiply(a, c));
    } else if c == 0 {
      XorZero(b);
      XorZero(f.Multiply(a, b));
    } else if b == c {
      XorSelf(b);
      XorSelf(f.Multiply(a, b));
    } else {
      XorCancel(b, c);
      XorZero(c);
      ElementOctet(f, b);
      ElementOctet(f, c);
      ElementOctet(f, d);
      var la := f.logarithmTable[a];
      var ob, oc := OctetExp(f.logarithmTable[b]), OctetExp(f.logarithmTable[c]);
      HighXor(ob, oc, 0);
      ValueInjective(OctetExp(f.logarithmTable[d]), OctetXor(ob, oc));
      MultiplyOctet(f, a, b);
      MultiplyOctet(f, a, c);
      MultiplyOctet(f, a, d);
      StepsXor(ob, oc, la);
      HighXor(Steps(ob, la), Steps(oc, la), 0);
    }
  }

  /** The QR field is a field: its multiplication distributes over xor. */
  lemma QRFieldDistributive(f: GenericGF)
    requires IsQRField(f)
    ensures f.ProperField() && Distributive(f)
  {
    QRFieldIsProper(f);
    forall a, b, c | 0 <= a < f.size && 0 <= b < f.size && 0 <= c < f.size
      ensures f.Multiply(a, Xor(b, c)) == Xor(f.Multiply(a, b), f.Multiply(a, c))
    {
      DistributeAt(f, a, b, c);
    }
  }
}
