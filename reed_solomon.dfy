/** `ZXReedSolomonEncoder`: the generator-polynomial cache and the
    in-place computation of error-correction codewords. */
module ReedSolomon {
  import opened Errors
  import opened GenericGF
  import opened GenericGFPoly

  /** The generator of degree d can be built: degree 0 is the constant 1;
      a higher degree needs a proper field and exponents d - 1 + base that
      stay inside the exponent table. */
  predicate GeneratorDefined(f: GenericGF, d: int)
  {
    d == 0 || (d > 0 && f.ProperField() && 0 <= f.generatorBase && d - 1 + f.generatorBase < f.size)
  }

  /** The factor x + exp(d - 1 + base) that the cache multiplies in to go
      from degree d - 1 to degree d, built with the normalising initialiser
      from the coefficient list [1, exp(d - 1 + base)]. */
  function LinearFactor(f: GenericGF, d: int): (r: Poly)
    requires d > 0 && GeneratorDefined(f, d)
    ensures r.field == f && r.coefficients == [1, f.Exp(d - 1 + f.generatorBase)]
    ensures InField(r)
  {
    MakePolyCases(f, [1, f.Exp(d - 1 + f.generatorBase)]);
    MakePoly(f, [1, f.Exp(d - 1 + f.generatorBase)])
  }

  /** The generator polynomial of degree d: the product, by
      `multiply(other:)`, of the factors x + exp(i + base) for i < d. It is
      monic of degree d. */
  function Generator(f: GenericGF, d: nat): (g: Poly)
    requires GeneratorDefined(f, d)
    ensures g.field == f && (f.ProperField() ==> InField(g))
    ensures |g.coefficients| == d + 1 && g.coefficients[0] == 1
    decreases d
  {
    if d == 0 then
      Poly(f, [1])
    else
      var prev := Generator(f, d - 1);
      var factor := LinearFactor(f, d);
      MonicProduct(prev, factor);
      MultiplyResult(prev, factor).value
  }

  /** Each generator is the previous one times its linear factor, and the
      product is defined. */
  lemma GeneratorStep(f: GenericGF, d: nat)
    requires d > 0 && GeneratorDefined(f, d)
    ensures MultiplyDefined(Generator(f, d - 1), LinearFactor(f, d))
    ensures MultiplyResult(Generator(f, d - 1), LinearFactor(f, d)) == Ok(Generator(f, d))
  {
    MonicProduct(Generator(f, d - 1), LinearFactor(f, d));
  }

  /** The product exp(base) * exp(1 + base) * ... * exp(d - 1 + base) of
      the generator's roots. */
  function RootProduct(f: GenericGF, d: nat): (r: int)
    requires GeneratorDefined(f, d)
    ensures d == 0 ==> r == 1
    ensures d > 0 ==> 0 <= r < f.size
  {
    if d == 0 then 1 else f.Multiply(RootProduct(f, d - 1), f.Exp(d - 1 + f.generatorBase))
  }

  /** The constant term of the generator of degree d is the product of
      its roots (signs do not matter in characteristic 2). */
  lemma {:induction false} GeneratorConstantTerm(f: GenericGF, d: nat)
    requires GeneratorDefined(f, d)
    ensures Generator(f, d).coefficients[d] == RootProduct(f, d)
  {
    if d > 0 {
      GeneratorConstantTerm(f, d - 1);
      ProductShape(Generator(f, d - 1), LinearFactor(f, d));
    }
  }

  /** Entry i of the list is the generator of degree i, and the list is
      not empty. */
  predicate GeneratorList(f: GenericGF, cache: seq<Poly>)
  {
    |cache| >= 1 && GeneratorDefined(f, |cache| - 1) &&
    forall i :: 0 <= i < |cache| ==> cache[i] == Generator(f, i)
  }

  /** Appending the next generator keeps the list one. */
  lemma GeneratorListAppend(f: GenericGF, cache: seq<Poly>, d: nat)
    requires GeneratorList(f, cache) && d == |cache| && GeneratorDefined(f, d)
    ensures GeneratorList(f, cache + [Generator(f, d)])
  {
  }

  class ReedSolomonEncoder {
    const field: GenericGF
    var cachedGenerators: seq<Poly>

    /** Entry i of the cache is the generator of degree i, and the cache is
        never empty. */
    predicate Valid()
      reads this
    {
      GeneratorList(field, cachedGenerators)
    }

    /** `init(field:)`: the cache starts as [One]. */
    constructor (field: GenericGF)
      ensures this.field == field && cachedGenerators == [Poly(field, [1])]
      ensures Valid()
    {
      this.field := field;
      cachedGenerators := [Poly(field, [1])];
    }

    /** `buildGenerator(degree:)`: extends the cache up to `degree`, one
        linear factor at a time, and returns entry `degree`. */
    method BuildGenerator(degree: int) returns (g: Poly)
      requires Valid() && 0 <= degree && GeneratorDefined(field, degree)
      modifies this
      ensures Valid()
      ensures |cachedGenerators| == if degree >= |old(cachedGenerators)| then degree + 1 else |old(cachedGenerators)|
      ensures cachedGenerators[..|old(cachedGenerators)|] == old(cachedGenerators)
      ensures g == cachedGenerators[degree] == Generator(field, degree)
    {
      if degree >= |cachedGenerators| {
        var lastGen := cachedGenerators[|cachedGenerators| - 1];
        var currDegree := |cachedGenerators|;
        while currDegree <= degree
          invariant old(|cachedGenerators|) <= currDegree <= degree + 1
          invariant |cachedGenerators| == currDegree
          invariant cachedGenerators[..|old(cachedGenerators)|] == old(cachedGenerators)
          invariant Valid()
          invariant lastGen == cachedGenerators[currDegree - 1]
          decreases degree + 1 - currDegree
        {
          var nextCoeffs := [1, field.Exp(currDegree - 1 + field.generatorBase)];
          assert MakePoly(field, nextCoeffs) == LinearFactor(field, currDegree);
          GeneratorStep(field, currDegree);
          var nextGen := MultiplyPoly(lastGen, MakePoly(field, nextCoeffs));
          GeneratorListAppend(field, cachedGenerators, currDegree);
          cachedGenerators := cachedGenerators + [nextGen.value];
          lastGen := nextGen.value;
          currDegree := currDegree + 1;
        }
      }
      g := cachedGenerators[degree];
    }

    /** The data polynomial built from `data`, after the no-shift
        `multiply(degree: ecBytes, coefficient: 1)`. */
    static function Shifted(data: seq<int>, field: GenericGF, ecBytes: int): (p: Poly)
      requires field.ProperField() && Elements(field, data) && ecBytes >= 0
      requires InitDefined(data) && InitDefined(MakePoly(field, data).coefficients)
      ensures p.field == field && InField(p)
    {
      var info := MakePoly(field, data);
      MakePolyElements(field, data);
      ScaledByOne(field, info.coefficients);
      MakePolyElements(field, info.coefficients);
      MultiplyByMonomial(info, ecBytes, 1).value
    }

    /** The facts the calls in `encode` need on the way to Shifted. */
    static lemma ShiftedSteps(data: seq<int>, field: GenericGF, ecBytes: int)
      requires field.ProperField() && Elements(field, data) && ecBytes >= 0
      requires InitDefined(data) && InitDefined(MakePoly(field, data).coefficients)
      ensures var info := MakePoly(field, data);
        InField(info) && 1 < field.size && InitDefined(Scaled(field, info.coefficients, 1)) &&
        MultiplyByMonomial(info, ecBytes, 1).Ok? &&
        MultiplyByMonomial(info, ecBytes, 1).value == Shifted(data, field, ecBytes)
    {
      MakePolyElements(field, data);
      ScaledByOne(field, MakePoly(field, data).coefficients);
    }

    /** What a successful `encode` needs to run to completion: the data
        prefix is a list of field elements the initialiser accepts, the
        generator can be built, the division terminates and the remainder
        fits in the `ecBytes` slots. */
    static predicate EncodeDefined(data: seq<int>, field: GenericGF, ecBytes: int)
    {
      ecBytes > 0 && GeneratorDefined(field, ecBytes) &&
      Elements(field, data) && InitDefined(data) && InitDefined(MakePoly(field, data).coefficients) &&
      DivideDefined(Shifted(data, field, ecBytes), Generator(field, ecBytes)) &&
      DivideResult(Shifted(data, field, ecBytes), Generator(field, ecBytes)).Ok? &&
      |DivideResult(Shifted(data, field, ecBytes), Generator(field, ecBytes)).value.1.coefficients| <= ecBytes
    }

    /** The remainder whose coefficients `encode` writes. */
    static function Remainder(data: seq<int>, field: GenericGF, ecBytes: int): (r: seq<int>)
      requires EncodeDefined(data, field, ecBytes)
      ensures |r| <= ecBytes
    {
      DivideResult(Shifted(data, field, ecBytes), Generator(field, ecBytes)).value.1.coefficients
    }

    /** The codewords `encode` leaves after the data: the remainder,
        right-aligned in `ecBytes` slots and padded with zeros in front. */
    static function EcCodewords(data: seq<int>, field: GenericGF, ecBytes: int): (r: seq<int>)
      requires EncodeDefined(data, field, ecBytes)
      ensures var rem := Remainder(data, field, ecBytes);
        |r| == ecBytes && r[ecBytes - |rem|..] == rem &&
        forall k :: 0 <= k < ecBytes - |rem| ==> r[k] == 0
    {
      var rem := Remainder(data, field, ecBytes);
      seq(ecBytes - |rem|, _ => 0) + rem
    }

    /** The EC codewords are elements of the field. */
    static lemma EcCodewordsAreElements(data: seq<int>, field: GenericGF, ecBytes: int)
      requires EncodeDefined(data, field, ecBytes)
      ensures Elements(field, EcCodewords(data, field, ecBytes))
    {
      var self, other := Shifted(data, field, ecBytes), Generator(field, ecBytes);
      if !(|self.coefficients| < |other.coefficients| || IsZero(self)) {
        ReducedShape(self, other);
        MakePolyElements(field, ReducedCoefficients(self, other));
      }
    }

    /** The two writing loops of `encode`: zeros from `dataBytesOffset`,
        then the coefficients flush with the end of `target`. */
    static method WriteCodewords(target: array<int>, dataBytesOffset: nat, coefficients: seq<int>)
      requires dataBytesOffset + |coefficients| <= target.Length
      modifies target
      ensures target[..dataBytesOffset] == old(target[..dataBytesOffset])
      ensures target[dataBytesOffset..] ==
        seq(target.Length - dataBytesOffset - |coefficients|, _ => 0) + coefficients
    {
      var ecBytes := target.Length - dataBytesOffset;
      var zeroCoeffsOffset := ecBytes - |coefficients|;
      for idx := 0 to zeroCoeffsOffset
        invariant target[..dataBytesOffset] == old(target[..dataBytesOffset])
        invariant forall k :: dataBytesOffset <= k < dataBytesOffset + idx ==> target[k] == 0
      {
        target[dataBytesOffset + idx] := 0;
      }
      for idx := 0 to |coefficients|
        invariant target[..dataBytesOffset] == old(target[..dataBytesOffset])
        invariant forall k :: dataBytesOffset <= k < dataBytesOffset + zeroCoeffsOffset ==> target[k] == 0
        invariant forall k :: 0 <= k < idx ==> target[dataBytesOffset + zeroCoeffsOffset + k] == coefficients[k]
      {
        target[dataBytesOffset + zeroCoeffsOffset + idx] := coefficients[idx];
      }
      ghost var expected := seq(zeroCoeffsOffset, _ => 0) + coefficients;
      assert target[dataBytesOffset..] == expected by {
        forall k | 0 <= k < ecBytes
          ensures target[dataBytesOffset..][k] == expected[k]
        {
          if k >= zeroCoeffsOffset {
            assert expected[k] == coefficients[k - zeroCoeffsOffset];
          }
        }
      }
    }

    /** `encode(toEncode:field:errorCorrectionBytes:)`: rejects a zero EC
        count and a target with no data in front of the EC slots; otherwise
        overwrites the last `ecBytes` entries of `target` with the EC
        codewords of the entries before them, using a fresh encoder. */
    static method Encode(target: array<int>, field: GenericGF, ecBytes: int) returns (error: Option<ZXError>)
      requires ecBytes >= 0
      requires ecBytes != 0 && target.Length - ecBytes > 0 ==>
        EncodeDefined(target[..target.Length - ecBytes], field, ecBytes)
      modifies target
      ensures error.Some? <==> ecBytes == 0 || target.Length - ecBytes <= 0
      ensures error.Some? ==> error.value == IllegalArgument && target[..] == old(target[..])
      ensures error.None? ==>
        target[..target.Length - ecBytes] == old(target[..target.Length - ecBytes]) &&
        target[target.Length - ecBytes..] == EcCodewords(old(target[..target.Length - ecBytes]), field, ecBytes)
    {
      if ecBytes == 0 {
        return Some(IllegalArgument);
      }
      var dataBytesOffset := target.Length - ecBytes;
      if dataBytesOffset <= 0 {
        return Some(IllegalArgument);
      }
      var infoCoeffs := target[..dataBytesOffset];
      var encoder := new ReedSolomonEncoder(field);
      var generator := encoder.BuildGenerator(ecBytes);
      var info := MakePoly(field, infoCoeffs);
      ShiftedSteps(infoCoeffs, field, ecBytes);
      info := MultiplyByMonomial(info, ecBytes, 1).value;
      var division := Divide(info, generator);
      var coefficients := division.value.1.coefficients;
      assert coefficients == Remainder(infoCoeffs, field, ecBytes);
      WriteCodewords(target, dataBytesOffset, coefficients);
      return None;
    }

    /** Data no longer than the EC count, with a nonzero head, is its own
        remainder: the shifting-free multiply leaves it shorter than the
        generator, so `divide` returns it untouched and the EC codewords
        are the data itself, zero-padded in front. */
    static lemma ShortDataIsRemainder(data: seq<int>, field: GenericGF, ecBytes: int)
      requires ecBytes > 0 && GeneratorDefined(field, ecBytes)
      requires Elements(field, data) && 0 < |data| <= ecBytes && data[0] != 0
      ensures EncodeDefined(data, field, ecBytes)
      ensures Remainder(data, field, ecBytes) == data
      ensures EcCodewords(data, field, ecBytes) == seq(ecBytes - |data|, _ => 0) + data
    {
      ShortDataDivides(data, field, ecBytes);
      var ec, pad := EcCodewords(data, field, ecBytes), ecBytes - |data|;
      assert ec[pad..] == data;
      assert ec[..pad] == seq(pad, _ => 0);
      assert ec == ec[..pad] + ec[pad..];
    }

    /** The division step of `ShortDataIsRemainder`: data shorter than the
        generator is its own remainder. */
    static lemma ShortDataDivides(data: seq<int>, field: GenericGF, ecBytes: int)
      requires ecBytes > 0 && GeneratorDefined(field, ecBytes)
      requires Elements(field, data) && 0 < |data| <= ecBytes && data[0] != 0
      ensures EncodeDefined(data, field, ecBytes)
      ensures Remainder(data, field, ecBytes) == data
    {
      MakePolyCases(field, data);
      ScaledByOne(field, data);
    }

    /** With a nonzero head and more than ecBytes + 1 data entries the
        division loop never ends, so `encode` cannot complete. */
    static lemma LongDataDiverges(data: seq<int>, field: GenericGF, ecBytes: int)
      requires ecBytes > 0 && GeneratorDefined(field, ecBytes)
      requires Elements(field, data) && |data| > ecBytes + 1 && data[0] != 0
      ensures !EncodeDefined(data, field, ecBytes)
    {
      MakePolyCases(field, data);
      ScaledByOne(field, data);
      MakePolyCases(field, Scaled(field, data, 1));
    }
  }
}
