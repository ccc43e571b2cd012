/** The Reed-Solomon error-correction codewords that
    `ZXReedSolomonEncoder.encode` is evidently meant to compute: the
    remainder of data * x^ecBytes modulo the generator, found by a long
    division that runs until the remainder is shorter than the generator
    (the Swift `divide(other:)` stops after one round). The codeword, data
    followed by these bytes, vanishes at every root of the generator. */
module RSRemainder {
  import Bits
  import opened Errors
  import opened GenericGF
  import opened GenericGFPoly
  import opened ReedSolomon
  import opened PolyAlgebra
  import QRField256
  import EncoderBlocks

  // ---------------------------------------------------------------------
  // Long division by a monic divisor

  /** One round of the division: subtract the divisor, scaled by the head
      of p and aligned with it, and drop the head, which becomes 0. */
  function CancelHead(f: GenericGF, p: seq<int>, g: seq<int>): (r: seq<int>)
    requires f.ProperField() && Elements(f, p) && Elements(f, g) && 1 <= |g| <= |p|
    ensures |r| == |p| - 1 && Elements(f, r)
  {
    seq(|p| - 1, k requires 0 <= k < |p| - 1 =>
      if k + 1 < |g| then Add(p[k + 1], f.Multiply(p[0], g[k + 1])) else p[k + 1])
  }

  /** The remainder of p modulo the monic g, as |g| - 1 coefficients
      (leading zeros kept): rounds of `CancelHead` until p is that short. */
  function Reduce(f: GenericGF, p: seq<int>, g: seq<int>): (r: seq<int>)
    requires f.ProperField() && Elements(f, p) && Elements(f, g) && 1 <= |g| && |g| - 1 <= |p|
    ensures |r| == |g| - 1 && Elements(f, r)
    decreases |p|
  {
    if |p| == |g| - 1 then p else Reduce(f, CancelHead(f, p, g), g)
  }

  /** The `ecBytes` codewords `encode` should write after the data: the
      remainder of data * x^ecBytes modulo the generator of degree
      `ecBytes`. */
  function IntendedECCodewords(f: GenericGF, data: seq<int>, ecBytes: nat): (r: seq<int>)
    requires f.ProperField() && Elements(f, data) && GeneratorDefined(f, ecBytes)
    ensures |r| == ecBytes && Elements(f, r)
  {
    Reduce(f, data + Zeros(ecBytes), Generator(f, ecBytes).coefficients)
  }

  // ---------------------------------------------------------------------
  // The generator's roots

  /** Root i of the generator: exp(i + base). */
  function Root(f: GenericGF, d: nat, i: nat): (x: int)
    requires GeneratorDefined(f, d) && i < d
    ensures 0 <= x < f.size
  {
    f.Exp(i + f.generatorBase)
  }

  /** The field facts the root lemmas rest on: a proper field whose
      multiplication distributes over addition. */
  predicate RootField(f: GenericGF)
  {
    f.ProperField() && Distributive(f)
  }

  /** The generator of degree d vanishes at each of its d roots: the
      newest root at the newest factor, the earlier ones by induction. */
  lemma {:induction false} GeneratorRoot(f: GenericGF, d: nat, i: nat)
    requires RootField(f) && GeneratorDefined(f, d) && i < d
    ensures Horner(f, Generator(f, d).coefficients, Root(f, d, i)) == 0
    decreases d, 1
  {
    if i == d - 1 {
      LastRoot(f, d, i);
    } else {
      EarlierRoot(f, d, i);
    }
  }

  /** The roots of the previous generator are roots of this one. */
  lemma {:induction false} EarlierRoot(f: GenericGF, d: nat, i: nat)
    requires RootField(f) && d > 0 && GeneratorDefined(f, d) && i < d - 1
    ensures Horner(f, Generator(f, d).coefficients, Root(f, d, i)) == 0
    decreases d, 0
  {
    GeneratorDefinedBelow(f, d);
    GeneratorRoot(f, d - 1, i);
    RootStays(f, d, i);
  }

  /** The newest root is a root of the newest factor. */
  lemma LastRoot(f: GenericGF, d: nat, i: nat)
    requires RootField(f) && GeneratorDefined(f, d) && i == d - 1
    ensures Horner(f, Generator(f, d).coefficients, Root(f, d, i)) == 0
  {
    FactorRoot(f, d, Root(f, d, i));
    GeneratorVanishes(f, d, Root(f, d, i));
  }

  /** The generators below a buildable one are buildable. */
  lemma GeneratorDefinedBelow(f: GenericGF, d: nat)
    requires d > 0 && GeneratorDefined(f, d)
    ensures GeneratorDefined(f, d - 1)
  {
  }

  /** A root of the previous generator stays a root. */
  lemma RootStays(f: GenericGF, d: nat, i: nat)
    requires RootField(f) && GeneratorDefined(f, d) && i < d - 1
    requires Horner(f, Generator(f, d - 1).coefficients, Root(f, d - 1, i)) == 0
    ensures Horner(f, Generator(f, d).coefficients, Root(f, d, i)) == 0
  {
    assert Root(f, d - 1, i) == Root(f, d, i);
    GeneratorVanishes(f, d, Root(f, d, i));
  }

  /** The generator vanishes where the previous one or its linear factor
      does. */
  lemma GeneratorVanishes(f: GenericGF, d: nat, x: int)
    requires f.ProperField() && Distributive(f) && d > 0 && GeneratorDefined(f, d) && 0 <= x < f.size
    requires Horner(f, Generator(f, d - 1).coefficients, x) == 0 || Horner(f, LinearFactor(f, d).coefficients, x) == 0
    ensures Horner(f, Generator(f, d).coefficients, x) == 0
  {
    GeneratorEvaluates(f, d, x);
  }

  /** The value of the generator is the value of the previous one times
      that of its linear factor. */
  lemma GeneratorEvaluates(f: GenericGF, d: nat, x: int)
    requires f.ProperField() && Distributive(f) && d > 0 && GeneratorDefined(f, d) && 0 <= x < f.size
    ensures Horner(f, Generator(f, d).coefficients, x) ==
      f.Multiply(Horner(f, Generator(f, d - 1).coefficients, x), Horner(f, LinearFactor(f, d).coefficients, x))
  {
    GeneratorStep(f, d);
    MultiplyEvaluates(Generator(f, d - 1), LinearFactor(f, d), x);
  }

  /** The linear factor x + exp(d - 1 + base) vanishes at exp(d - 1 + base). */
  lemma FactorRoot(f: GenericGF, d: nat, x: int)
    requires f.ProperField() && d > 0 && GeneratorDefined(f, d) && x == Root(f, d, d - 1)
    ensures Horner(f, LinearFactor(f, d).coefficients, x) == 0
  {
    assert LinearFactor(f, d).coefficients[..1] == [1];
    MultiplyUnit(f, x, 1);
    AddSelf(x);
  }

  // ---------------------------------------------------------------------
  // Division keeps the value at a root of the divisor

  /** Zeros appended to a list with value 0 keep the value 0. */
  lemma {:induction false} HornerZeroAppendZeros(f: GenericGF, u: seq<int>, m: nat, x: int)
    requires f.ProperField() && u != [] && Elements(f, u) && 0 <= x < f.size && Horner(f, u, x) == 0
    ensures Elements(f, u + Zeros(m)) && Horner(f, u + Zeros(m), x) == 0
  {
    if m > 0 {
      var v := u + Zeros(m - 1);
      HornerZeroAppendZeros(f, u, m - 1, x);
      ZerosStep(u, m);
      ZeroStaysZero(f, v, x);
    } else {
      assert u + Zeros(m) == u;
    }
  }

  /** One more zero at the end. */
  lemma ZerosStep(u: seq<int>, m: nat)
    requires m > 0
    ensures u + Zeros(m) == (u + Zeros(m - 1)) + [0]
  {
  }

  /** A zero appended to a list with value 0 keeps the value 0. */
  lemma ZeroStaysZero(f: GenericGF, v: seq<int>, x: int)
    requires f.ProperField() && v != [] && Elements(f, v) && 0 <= x < f.size && Horner(f, v, x) == 0
    ensures Elements(f, v + [0]) && Horner(f, v + [0], x) == 0
  {
    HornerAppendZero(f, v, x);
  }

  /** A round of the division keeps the value at every root of the
      divisor. */
  lemma CancelKeepsValue(f: GenericGF, p: seq<int>, g: seq<int>, x: int)
    requires f.ProperField() && Distributive(f) && Elements(f, p) && Elements(f, g)
    requires 2 <= |g| <= |p| && g[0] == 1 && 0 <= x < f.size && Horner(f, g, x) == 0
    ensures Horner(f, CancelHead(f, p, g), x) == Horner(f, p, x)
  {
    var c := p[0];
    var t := CancelHead(f, p, g);
    var u := Row(f, c, g) + Zeros(|p| - |g|);
    HornerRow(f, c, g, x);
    HornerZeroAppendZeros(f, Row(f, c, g), |p| - |g|, x);
    var w := [0] + t;
    CancelTerms(f, p, g);
    HornerSum(f, p, u, w, x);
    AddZero(Horner(f, p, x));
    HornerLeadingZero(f, t, x);
  }

  /** The round, with its zero head, is p plus the aligned scaled divisor. */
  lemma CancelTerms(f: GenericGF, p: seq<int>, g: seq<int>)
    requires f.ProperField() && Elements(f, p) && Elements(f, g) && 2 <= |g| <= |p| && g[0] == 1
    ensures var u, w := Row(f, p[0], g) + Zeros(|p| - |g|), [0] + CancelHead(f, p, g);
      |u| == |w| == |p| && forall k :: 0 <= k < |p| ==> w[k] == Add(p[k], u[k])
  {
    var c, t := p[0], CancelHead(f, p, g);
    var u, w := Row(f, c, g) + Zeros(|p| - |g|), [0] + t;
    forall k | 0 <= k < |p|
      ensures w[k] == Add(p[k], u[k])
    {
      if k == 0 {
        MultiplyUnit(f, c, 1);
        AddSelf(c);
      } else if k < |g| {
        assert w[k] == t[k - 1] && u[k] == Row(f, c, g)[k];
      } else {
        assert w[k] == t[k - 1] && u[k] == 0;
        AddZero(p[k]);
      }
    }
  }

  /** Hence the remainder has the value of p at every root of the
      divisor. */
  lemma {:induction false} ReduceKeepsValue(f: GenericGF, p: seq<int>, g: seq<int>, x: int)
    requires f.ProperField() && Distributive(f) && Elements(f, p) && Elements(f, g)
    requires 2 <= |g| && |g| - 1 <= |p| && g[0] == 1 && 0 <= x < f.size && Horner(f, g, x) == 0
    ensures Horner(f, Reduce(f, p, g), x) == Horner(f, p, x)
    decreases |p|
  {
    if |p| > |g| - 1 {
      CancelKeepsValue(f, p, g, x);
      ReduceKeepsValue(f, CancelHead(f, p, g), g, x);
    }
  }

  // ---------------------------------------------------------------------
  // The codeword

  /** Data followed by the intended EC codewords is a codeword: it
      vanishes at each of the generator's `ecBytes` roots, that is, the
      generator divides it. */
  lemma CodewordVanishes(f: GenericGF, data: seq<int>, ecBytes: nat, i: nat)
    requires f.ProperField() && Distributive(f) && Elements(f, data)
    requires GeneratorDefined(f, ecBytes) && i < ecBytes
    ensures Elements(f, data + IntendedECCodewords(f, data, ecBytes))
    ensures Horner(f, data + IntendedECCodewords(f, data, ecBytes), Root(f, ecBytes, i)) == 0
  {
    var x := Root(f, ecBytes, i);
    var g := Generator(f, ecBytes).coefficients;
    var p := data + Zeros(ecBytes);
    var rem := IntendedECCodewords(f, data, ecBytes);
    GeneratorRoot(f, ecBytes, i);
    ReduceKeepsValue(f, p, g, x);
    CodewordSum(f, data, rem, x);
    AddSelf(Horner(f, p, x));
  }

  /** Data followed by the EC bytes is the sum of data * x^|rem| and of
      the EC bytes, in value. */
  lemma CodewordSum(f: GenericGF, data: seq<int>, rem: seq<int>, x: int)
    requires f.ProperField() && Distributive(f) && Elements(f, data) && Elements(f, rem)
    requires rem != [] && 0 <= x < f.size
    ensures Elements(f, data + Zeros(|rem|)) && Elements(f, data + rem)
    ensures Horner(f, data + rem, x) == Add(Horner(f, data + Zeros(|rem|), x), Horner(f, rem, x))
  {
    var p, q, w := data + Zeros(|rem|), Zeros(|data|) + rem, data + rem;
    HornerLeadingZeros(f, |data|, rem, x);
    forall k | 0 <= k < |w|
      ensures w[k] == Add(p[k], q[k])
    {
      AddZero(w[k]);
    }
    HornerSum(f, p, q, w, x);
  }

  /** The same over the QR code field, where distributivity is proved. */
  lemma QRCodewordVanishes(f: GenericGF, data: seq<int>, ecBytes: nat, i: nat)
    requires QRField256.IsQRField(f) && Elements(f, data) && 0 < ecBytes < 256 && i < ecBytes
    ensures f.ProperField() && GeneratorDefined(f, ecBytes)
    ensures Horner(f, data + IntendedECCodewords(f, data, ecBytes), Root(f, ecBytes, i)) == 0
  {
    QRField256.QRFieldDistributive(f);
    CodewordVanishes(f, data, ecBytes, i);
  }

  // ---------------------------------------------------------------------
  // The source against the intended codewords

  /** As written, a block no longer than its EC count gets its own bytes
      as EC bytes: for the byte 1 with two EC bytes over the QR code field
      that is [0, 1]. The word 1, 0, 1 is not a codeword, since it does not
      vanish at the generator's second root 2, and the intended EC bytes
      differ. */
  lemma ShortBlockAsWritten(f: GenericGF)
    requires QRField256.IsQRField(f)
    ensures EncoderBlocks.ECBlockDefined([1], 2, f) && EncoderBlocks.ECBytes([1], 2, f) == Ok([0, 1])
    ensures f.ProperField() && GeneratorDefined(f, 2) && Root(f, 2, 1) == 2
    ensures Horner(f, [1] + [0, 1], Root(f, 2, 1)) != 0
    ensures IntendedECCodewords(f, [1], 2) != [0, 1]
  {
    EncoderBlocks.ShortBlockECBytes([1], 2, f);
    assert seq(1, _ => 0) + [1] == [0, 1];
    NotACodeword(f);
    QRCodewordVanishes(f, [1], 2, 1);
  }

  /** 1, 0, 1 (x^2 + 1) does not vanish at 2 in the QR code field. */
  lemma NotACodeword(f: GenericGF)
    requires QRField256.IsQRField(f)
    ensures f.ProperField() && GeneratorDefined(f, 2) && Root(f, 2, 1) == 2
    ensures Horner(f, [1] + [0, 1], 2) != 0
  {
    QRField256.QRFieldIsProper(f);
    SmallPowers(f);
    var c := [1, 0, 1];
    assert [1] + [0, 1] == c;
    assert c[..2] == [1, 0] && [1, 0][..1] == [1];
    MultiplyUnit(f, 2, 1);
    AddZero(2);
    assert Horner(f, [1, 0], 2) == 2;
    assert Horner(f, c, 2) == Add(4, 1);
    Bits.XorZero(1);
  }

  /** 2 and 2 * 2 = 4 in the QR code field. */
  lemma SmallPowers(f: GenericGF)
    requires QRField256.IsQRField(f) && f.ProperField()
    ensures f.Exp(1) == 2 && f.Multiply(2, 2) == 4
  {
    assert f.exponentTable[1] == ExpValue(f.primitive, f.size, 1);
    assert f.exponentTable[2] == ExpValue(f.primitive, f.size, 2);
    MultiplyExp(f, 1, 1);
  }
}
