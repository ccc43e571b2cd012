/** ZXGenericGF.swift: arithmetic in GF(size) through exponent and
    logarithm tables built from a primitive polynomial with generator 2,
    and the value type of polynomials over such a field (the struct
    ZXGenericGFPoly with its normalising initialiser; its operations are
    in module GenericGFPoly). */
module GenericGF {
  import opened Bits
  import opened Errors

  // ---------------------------------------------------------------------
  // Table construction, as functions of the primitive and the size

  /** One step of the exponent loop: double, and once the result reaches
      the size, xor in the primitive and mask with size - 1. */
  function NextPower(primitive: nat, size: nat, x: nat): nat
    requires size >= 1
  {
    if 2 * x >= size then And(NatXor(2 * x, primitive), size - 1) else 2 * x
  }

  /** Entry n of the exponent table: 2 to the n-th power in the field. */
  function ExpValue(primitive: nat, size: nat, n: nat): nat
    requires size >= 1
  {
    if n == 0 then 1 else NextPower(primitive, size, ExpValue(primitive, size, n - 1))
  }

  /** The logarithm table after the first n rounds of its loop: all zeros,
      then entry exp[idx] set to idx for idx = 0, 1, ..., n - 1. */
  function LogTable(exp: seq<int>, size: nat, n: nat): (r: seq<int>)
    requires n <= |exp|
    requires forall i :: 0 <= i < n ==> 0 <= exp[i] < size
    ensures |r| == size
  {
    if n == 0 then seq(size, _ => 0) else LogTable(exp, size, n - 1)[exp[n - 1] := n - 1]
  }

  /** Logarithms are below size - 1 (the order of the multiplicative
      group); a one-element field keeps only the initial 0. */
  function LogBound(size: int): int
  {
    if size >= 2 then size - 1 else 1
  }

  /** Every entry of a table of size >= 2 lies in [0, size). */
  lemma {:induction false} ExpValueRange(primitive: nat, size: nat, n: nat)
    requires size >= 2
    ensures ExpValue(primitive, size, n) < size
  {
    if n > 0 {
      ExpValueRange(primitive, size, n - 1);
      var x := ExpValue(primitive, size, n - 1);
      AndAtMost(NatXor(2 * x, primitive), size - 1);
    }
  }

  /** The logarithm entries are loop indices below n, or the initial 0. */
  lemma {:induction false} LogTableRange(exp: seq<int>, size: nat, n: nat)
    requires n <= |exp|
    requires forall i :: 0 <= i < n ==> 0 <= exp[i] < size
    ensures forall v :: 0 <= v < size ==> 0 <= LogTable(exp, size, n)[v] < (if n == 0 then 1 else n)
  {
    if n > 0 {
      LogTableRange(exp, size, n - 1);
    }
  }

  /** One more round of the logarithm loop sets entry exp[n] to n. */
  lemma LogTableStep(exp: seq<int>, size: nat, n: nat)
    requires n < |exp| && forall i :: 0 <= i <= n ==> 0 <= exp[i] < size
    ensures LogTable(exp, size, n + 1) == LogTable(exp, size, n)[exp[n] := n]
  {
  }

  /** When the first n exponents are distinct, the logarithm table inverts them. */
  lemma {:induction false} LogTableInverts(exp: seq<int>, size: nat, n: nat)
    requires n <= |exp|
    requires forall i :: 0 <= i < n ==> 0 <= exp[i] < size
    requires forall i, j :: 0 <= i < j < n ==> exp[i] != exp[j]
    ensures forall i :: 0 <= i < n ==> LogTable(exp, size, n)[exp[i]] == i
  {
    if n > 0 {
      LogTableInverts(exp, size, n - 1);
    }
  }

  // ---------------------------------------------------------------------
  // The field

  class GenericGF {
    const size: int
    const primitive: int
    const generatorBase: int
    /** Written only by the initialiser, like the Swift `var` tables. */
    const exponentTable: seq<int>
    const logarithmTable: seq<int>

    /** The tables are the ones the initialiser's loops build. */
    predicate Valid()
    {
      && size >= 1 && primitive >= 0
      && |exponentTable| == size && |logarithmTable| == size
      && (forall i {:trigger ExpValue(primitive, size, i)} :: 0 <= i < size ==> exponentTable[i] == ExpValue(primitive, size, i))
      && (size >= 2 ==> forall i :: 0 <= i < size ==> 0 <= exponentTable[i] < size)
      && logarithmTable == LogTable(exponentTable, size, size - 1)
      && (forall v :: 0 <= v < size ==> 0 <= logarithmTable[v] < LogBound(size))
    }

    /** `init(primitive:size:base:)`: fills the exponent table by repeated
        doubling, then the logarithm table from it. A negative size traps
        when the arrays are made; a negative primitive is outside the
        model of `^`. */
    constructor (primitive: int, size: int, base: int)
      requires primitive >= 0 && size >= 1
      ensures this.primitive == primitive && this.size == size && generatorBase == base
      ensures Valid()
    {
      this.primitive := primitive;
      this.size := size;
      this.generatorBase := base;
      var exp := seq(size, _ => 0);
      var x := 1;
      var idx := 0;
      while idx < size
        invariant 0 <= idx <= size && |exp| == size
        invariant x == ExpValue(primitive, size, idx)
        invariant forall i {:trigger exp[i]} :: 0 <= i < idx ==> exp[i] == ExpValue(primitive, size, i)
      {
        exp := exp[idx := x];
        x := 2 * x;
        if x >= size {
          x := Xor(x, primitive);
          x := And(x, size - 1);
        }
        idx := idx + 1;
      }
      if size >= 2 {
        forall i | 0 <= i < size
          ensures 0 <= exp[i] < size
        {
          ExpValueRange(primitive, size, i);
        }
      }
      assert forall i :: 0 <= i < size - 1 ==> 0 <= exp[i] < size;
      var log := seq(size, _ => 0);
      idx := 0;
      while idx < size - 1
        invariant 0 <= idx <= size - 1
        invariant forall i :: 0 <= i < size - 1 ==> 0 <= exp[i] < size
        invariant log == LogTable(exp, size, idx)
      {
        LogTableStep(exp, size, idx);
        log := log[exp[idx] := idx];
        idx := idx + 1;
      }
      LogTableRange(exp, size, size - 1);
      this.exponentTable := exp;
      this.logarithmTable := log;
    }

    /** `Zero`: the constant polynomial 0 (memoised in Swift; a value here). */
    function Zero(): (p: Poly)
      ensures p.field == this && p.coefficients == [0]
    {
      Poly(this, [0])
    }

    /** `One`: the constant polynomial 1. */
    function One(): (p: Poly)
      ensures p.field == this && p.coefficients == [1]
    {
      Poly(this, [1])
    }

    /** `buildMonomial(degree:coefficient:)`: coefficient * x^degree. */
    function BuildMonomial(degree: int, coefficient: int): (r: Result<Poly>)
      ensures degree < 0 <==> r == Err(IllegalArgument)
      ensures degree >= 0 && coefficient == 0 ==> r == Ok(Zero())
      ensures degree >= 0 && coefficient != 0 ==>
        r.Ok? && r.value.field == this &&
        |r.value.coefficients| == degree + 1 && r.value.coefficients[0] == coefficient &&
        forall i :: 0 < i <= degree ==> r.value.coefficients[i] == 0
    {
      if degree < 0 then Err(IllegalArgument)
      else if coefficient == 0 then Ok(Zero())
      else
        var coefficients := [coefficient] + seq(degree, _ => 0);
        Ok(MakePoly(this, coefficients))
    }

    /** `exp(value:)`: 2^value. */
    function Exp(value: int): (r: int)
      requires Valid() && 0 <= value < size
      ensures value == 0 ==> r == 1
      ensures size >= 2 ==> 0 <= r < size
    {
      assert ExpValue(primitive, size, 0) == 1;
      exponentTable[value]
    }

    /** `log(value:)`: the logarithm; undefined at 0. */
    function Log(value: int): (r: Result<int>)
      requires Valid() && 0 <= value < size
      ensures value == 0 <==> r == Err(IllegalArgument)
      ensures r.Ok? ==> 0 <= r.value < size - 1
    {
      if value == 0 then Err(IllegalArgument) else Ok(logarithmTable[value])
    }

    /** `multInverse(value:)`: exp[size - log[value] - 1]; undefined at 0. */
    function MultInverse(value: int): (r: Result<int>)
      requires Valid() && 0 <= value < size
      ensures value == 0 <==> r == Err(IllegalArgument)
      ensures r.Ok? && size >= 2 ==> 0 <= r.value < size
    {
      if value == 0 then Err(IllegalArgument)
      else Ok(exponentTable[size - logarithmTable[value] - 1])
    }

    /** `multiply`: 0 when either side is 0, otherwise the exponent of the
        summed logarithms modulo size - 1. */
    function Multiply(itemA: int, itemB: int): (r: int)
      requires Valid() && 0 <= itemA < size && 0 <= itemB < size
      ensures itemA == 0 || itemB == 0 ==> r == 0
      ensures size >= 2 ==> 0 <= r < size
    {
      TableMultiply(exponentTable, logarithmTable, itemA, itemB)
    }

    /** The algebra the tables give when 2 generates the whole
        multiplicative group (see GroupTables), and xor keeps elements in
        range. */
    predicate ProperField()
    {
      && Valid()
      && GroupTables(exponentTable, logarithmTable, size)
      && (forall a, b :: 0 <= a < size && 0 <= b < size ==> 0 <= Xor(a, b) < size)
    }
  }

  /** Multiplication distributes over addition (xor). The table
      construction gives this when the primitive is a primitive polynomial;
      QRField256.QRFieldDistributive proves it for the QR code field. */
  predicate Distributive(f: GenericGF)
    requires f.ProperField()
  {
    forall a, b, c {:trigger f.Multiply(a, Xor(b, c))} :: 0 <= a < f.size && 0 <= b < f.size && 0 <= c < f.size ==>
      f.Multiply(a, Xor(b, c)) == Xor(f.Multiply(a, b), f.Multiply(a, c))
  }

  /** The body of `multiply`, on the two tables. */
  function TableMultiply(exp: seq<int>, log: seq<int>, a: int, b: int): int
    requires |exp| == |log| && 0 <= a < |exp| && 0 <= b < |exp|
    requires forall v :: 0 <= v < |log| ==> 0 <= log[v]
  {
    if a == 0 || b == 0 then 0 else exp[(log[a] + log[b]) % (|exp| - 1)]
  }

  /** Tables of a field whose multiplicative group 2 generates: exponents
      are nonzero, logarithms lie below the group order size - 1, each
      table inverts the other, and 2^0 = 2^(size-1) = 1. */
  predicate GroupTables(exp: seq<int>, log: seq<int>, size: int)
  {
    && size >= 2 && |exp| == size && |log| == size
    && (forall i :: 0 <= i < size ==> 0 < exp[i] < size)
    && (forall v :: 0 <= v < size ==> 0 <= log[v] < size - 1)
    && (forall i :: 0 <= i < size - 1 ==> log[exp[i]] == i)
    && (forall v :: 1 <= v < size ==> exp[log[v]] == v)
    && exp[0] == 1 && exp[size - 1] == 1
  }

  // ---------------------------------------------------------------------
  // The algebra of a proper field

  /** Sums of logarithms may be reduced modulo the group order at any point. */
  lemma ModAddLeft(x: nat, y: nat, n: nat)
    requires n >= 1
    ensures ((x % n) + y) % n == (x + y) % n
  {
    var q := x / n;
    assert x == q * n + x % n;
    assert x + y == q * n + ((x % n) + y);
    ModMultiple(q, (x % n) + y, n);
  }

  lemma ModMultiple(q: nat, z: nat, n: nat)
    requires n >= 1
    ensures (q * n + z) % n == z % n
  {
    var r := z % n;
    assert z == (z / n) * n + r;
    assert q * n + z == (q + z / n) * n + r;
    DivModUnique(q * n + z, n, q + z / n, r);
  }

  /** 1 is the identity, multiplication commutes, and the product of two
      nonzero elements is nonzero (on the tables). */
  lemma TableUnit(exp: seq<int>, log: seq<int>, a: int, b: int)
    requires GroupTables(exp, log, |exp|) && 0 <= a < |exp| && 0 <= b < |exp|
    ensures TableMultiply(exp, log, a, 1) == a && TableMultiply(exp, log, 1, a) == a
    ensures TableMultiply(exp, log, a, b) == TableMultiply(exp, log, b, a)
    ensures a != 0 && b != 0 ==> TableMultiply(exp, log, a, b) != 0
  {
    var n := |exp| - 1;
    assert log[1] == 0 by {
      assert log[exp[0]] == 0;
    }
    if a != 0 {
      DivModUnique(log[a] + log[1], n, 0, log[a]);
      DivModUnique(log[1] + log[a], n, 0, log[a]);
    }
    if a != 0 && b != 0 {
      var k := (log[a] + log[b]) % n;
      assert 0 <= k < n;
      assert log[b] + log[a] == log[a] + log[b];
    }
  }

  lemma TableAssoc(exp: seq<int>, log: seq<int>, a: int, b: int, c: int)
    requires GroupTables(exp, log, |exp|) && 0 <= a < |exp| && 0 <= b < |exp| && 0 <= c < |exp|
    ensures TableMultiply(exp, log, TableMultiply(exp, log, a, b), c) ==
      TableMultiply(exp, log, a, TableMultiply(exp, log, b, c))
  {
    if a != 0 && b != 0 && c != 0 {
      var n := |exp| - 1;
      var la, lb, lc := log[a], log[b], log[c];
      var ab, bc := TableMultiply(exp, log, a, b), TableMultiply(exp, log, b, c);
      assert log[ab] == (la + lb) % n;
      assert log[bc] == (lb + lc) % n;
      ModAddLeft(la + lb, lc, n);
      ModAddLeft(lb + lc, la, n);
      assert (la + lb) + lc == (lb + lc) + la;
    }
  }

  /** In a proper field exponentiation and the logarithm invert each other
      on [0, size - 1), and 2^0 is 1 with logarithm 0. */
  lemma ExpLog(f: GenericGF)
    requires f.ProperField()
    ensures f.Exp(0) == 1 && f.Log(1) == Ok(0)
    ensures forall i :: 0 <= i < f.size - 1 ==> f.Log(f.Exp(i)) == Ok(i)
    ensures forall v :: 1 <= v < f.size ==> f.Log(v).Ok? && f.Exp(f.Log(v).value) == v
  {
    assert f.logarithmTable[f.exponentTable[0]] == 0;
  }

  /** The product of two powers of 2 adds the exponents modulo the group
      order. */
  lemma MultiplyExp(f: GenericGF, i: nat, j: nat)
    requires f.ProperField() && i < f.size - 1 && j < f.size - 1
    ensures f.Multiply(f.Exp(i), f.Exp(j)) == f.Exp((i + j) % (f.size - 1))
  {
  }

  /** 1 is the identity, multiplication commutes, and the product of two
      nonzero elements is nonzero. */
  lemma MultiplyUnit(f: GenericGF, a: int, b: int)
    requires f.ProperField() && 0 <= a < f.size && 0 <= b < f.size
    ensures f.Multiply(a, 1) == a && f.Multiply(1, a) == a
    ensures f.Multiply(a, b) == f.Multiply(b, a)
    ensures a != 0 && b != 0 ==> f.Multiply(a, b) != 0
  {
    TableUnit(f.exponentTable, f.logarithmTable, a, b);
  }

  /** Multiplication is associative. */
  lemma MultiplyAssoc(f: GenericGF, a: int, b: int, c: int)
    requires f.ProperField() && 0 <= a < f.size && 0 <= b < f.size && 0 <= c < f.size
    ensures f.Multiply(f.Multiply(a, b), c) == f.Multiply(a, f.Multiply(b, c))
  {
    TableAssoc(f.exponentTable, f.logarithmTable, a, b, c);
  }

  /** `multInverse` gives the inverse: multiplying by it yields 1, on
      either side. */
  lemma MultInverseCorrect(f: GenericGF, v: int)
    requires f.ProperField() && 1 <= v < f.size
    ensures f.MultInverse(v).Ok? && f.MultInverse(v).value != 0
    ensures f.Multiply(v, f.MultInverse(v).value) == 1
    ensures f.Multiply(f.MultInverse(v).value, v) == 1
  {
    TableInverse(f.exponentTable, f.logarithmTable, v);
  }

  /** exp[size - 1 - log[v]] is the inverse of v (on the tables). */
  lemma TableInverse(exp: seq<int>, log: seq<int>, v: int)
    requires GroupTables(exp, log, |exp|) && 1 <= v < |exp|
    ensures exp[|exp| - log[v] - 1] != 0
    ensures TableMultiply(exp, log, v, exp[|exp| - log[v] - 1]) == 1
    ensures TableMultiply(exp, log, exp[|exp| - log[v] - 1], v) == 1
  {
    var n := |exp| - 1;
    var lv := log[v];
    var inv := exp[n - lv];
    var li := if lv == 0 then 0 else n - lv;
    assert log[inv] == li by {
      if lv == 0 {
        assert inv == exp[n] == 1 == exp[0];
      }
    }
    assert lv + li == 0 || lv + li == n;
    DivModUnique(lv + li, n, if lv == 0 then 0 else 1, 0);
    assert exp[0] == 1;
  }

  /** `ZXGenericGF.add` (static): xor. Adding the same value again undoes
      it, and the order of the operands does not matter. */
  function Add(itemA: int, itemB: int): (r: int)
    ensures Xor(r, itemB) == itemA
    ensures r == Xor(itemB, itemA)
  {
    XorCancel(itemA, itemB);
    XorComm(itemA, itemB);
    Xor(itemA, itemB)
  }

  /** `subtract`: the same operation as add. */
  function Subtract(itemA: int, itemB: int): (r: int)
    ensures r == Add(itemA, itemB)
  {
    Add(itemA, itemB)
  }

  lemma AddSelf(a: int)
    ensures Add(a, a) == 0
  {
    XorSelf(a);
  }

  lemma AddZero(a: int)
    ensures Add(a, 0) == a && Add(0, a) == a
  {
    XorZero(a);
  }

  // ---------------------------------------------------------------------
  // Polynomials (the ZXGenericGFPoly struct)

  /** A polynomial over `field`, highest-degree coefficient first. Two
      fields are equal only when they are the same object (NSObject's
      `isEqual`), which is reference equality here. */
  datatype Poly = Poly(field: GenericGF, coefficients: seq<int>)

  /** The value (not the position) of the first nonzero entry of s. */
  function FirstNonzero(s: seq<int>): (r: Option<int>)
    ensures r.Some? ==> r.value != 0 && r.value in s
    ensures r.None? <==> forall i :: 0 <= i < |s| ==> s[i] == 0
  {
    FirstNonzeroFrom(s, 0)
  }

  /** The value of the first nonzero entry of s at or after position i. */
  function FirstNonzeroFrom(s: seq<int>, i: nat): (r: Option<int>)
    ensures r.Some? ==> r.value != 0 && r.value in s
    ensures r.None? <==> forall k :: i <= k < |s| ==> s[k] == 0
    decreases |s| - i
  {
    if i >= |s| then None else if s[i] != 0 then Some(s[i]) else FirstNonzeroFrom(s, i + 1)
  }

  /** The initialiser strips a zero head by slicing from the first nonzero
      *value* after it; that slice traps unless the value is a valid start
      index, that is, lies in 0..count. */
  predicate InitDefined(coeffs: seq<int>)
  {
    |coeffs| > 1 && coeffs[0] == 0 && FirstNonzero(coeffs[1..]).Some? ==>
      0 <= FirstNonzero(coeffs[1..]).value <= |coeffs|
  }

  /** `ZXGenericGFPoly.init(field:coefficients:)`, as written. */
  function MakePoly(field: GenericGF, coeffs: seq<int>): (p: Poly)
    requires InitDefined(coeffs)
    ensures p.field == field
  {
    if |coeffs| > 1 && coeffs[0] == 0 then
      match FirstNonzero(coeffs[1..])
      case Some(offset) => Poly(field, coeffs[offset..])
      case None => Poly(field, [0])
    else if |coeffs| > 0 then Poly(field, coeffs)
    else Poly(field, [0])
  }

  /** The normalisation the initialiser's comment describes: drop zero
      terms ahead of the first nonzero coefficient, keeping [0] for zero. */
  function StripLeadingZeros(coeffs: seq<int>): (r: seq<int>)
    ensures r != []
    ensures r == [0] || r[0] != 0
  {
    if coeffs == [] then [0]
    else if coeffs[0] == 0 && |coeffs| > 1 then StripLeadingZeros(coeffs[1..])
    else coeffs
  }

  /** The three cases the initialiser gets right: empty input and all-zero
      input become [0]; a single coefficient, or a nonzero head, is kept.
      In each of them it agrees with StripLeadingZeros. */
  lemma MakePolyCases(field: GenericGF, coeffs: seq<int>)
    ensures coeffs == [] ==> MakePoly(field, coeffs).coefficients == [0]
    ensures |coeffs| > 1 && (forall i :: 0 <= i < |coeffs| ==> coeffs[i] == 0) ==>
      MakePoly(field, coeffs).coefficients == [0] == StripLeadingZeros(coeffs)
    ensures (|coeffs| == 1 || (|coeffs| > 1 && coeffs[0] != 0)) ==>
      MakePoly(field, coeffs).coefficients == coeffs == StripLeadingZeros(coeffs)
  {
    if |coeffs| > 1 && forall i :: 0 <= i < |coeffs| ==> coeffs[i] == 0 {
      AllZeroStrips(coeffs);
    }
  }

  lemma {:induction false} AllZeroStrips(coeffs: seq<int>)
    requires coeffs != [] && forall i :: 0 <= i < |coeffs| ==> coeffs[i] == 0
    ensures StripLeadingZeros(coeffs) == [0]
  {
    if |coeffs| > 1 {
      AllZeroStrips(coeffs[1..]);
    }
  }

  /** With a zero head, the initialiser slices at the first nonzero value
      rather than at its position: [0, 2, 7] becomes [7] where stripping
      gives [2, 7], and [0, 4, 0, 0] becomes [] (whose `isZero` traps). */
  lemma MakePolySlicesByValue(field: GenericGF)
    ensures MakePoly(field, [0, 2, 7]).coefficients == [7]
    ensures StripLeadingZeros([0, 2, 7]) == [2, 7]
    ensures MakePoly(field, [0, 4, 0, 0]).coefficients == []
  {
    assert [0, 2, 7][1..] == [2, 7];
    assert [0, 4, 0, 0][1..] == [4, 0, 0];
  }
}
