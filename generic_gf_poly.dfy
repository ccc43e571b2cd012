/** ZXGenericGFPoly.swift: the operations on polynomials over a GenericGF
    (the value type Poly and its normalising initialiser MakePoly live in
    module GenericGF, next to `buildMonomial`, which uses them). */
module GenericGFPoly {
  import opened Bits
  import opened Errors
  import opened GenericGF

  // ---------------------------------------------------------------------
  // Shape of a polynomial

  /** Every entry of s is an element of the field. */
  predicate Elements(f: GenericGF, s: seq<int>)
  {
    forall k :: 0 <= k < |s| ==> 0 <= s[k] < f.size
  }

  /** The field's tables are the initialiser's and every coefficient is an
      element, so that the table look-ups of `multiply` stay in bounds. */
  predicate InField(p: Poly)
  {
    p.field.Valid() && Elements(p.field, p.coefficients)
  }

  /** Xor of two elements is an element. */
  predicate XorClosed(f: GenericGF)
  {
    forall a, b :: 0 <= a < f.size && 0 <= b < f.size ==> 0 <= Xor(a, b) < f.size
  }

  /** `degree`. */
  function Degree(p: Poly): int
  {
    |p.coefficients| - 1
  }

  /** `isZero`: only the leading coefficient is looked at; the empty list
      traps. */
  predicate IsZero(p: Poly)
    requires |p.coefficients| > 0
  {
    p.coefficients[0] == 0
  }

  /** `coefficient(degree:)`: the list is highest degree first. */
  function Coefficient(p: Poly, degree: int): int
    requires 0 <= degree < |p.coefficients|
  {
    p.coefficients[|p.coefficients| - 1 - degree]
  }

  /** The coefficient of the top degree is the head of the list and that
      of degree 0 its last entry. */
  lemma CoefficientEnds(p: Poly)
    requires |p.coefficients| > 0
    ensures Coefficient(p, Degree(p)) == p.coefficients[0]
    ensures Coefficient(p, 0) == p.coefficients[|p.coefficients| - 1]
  {
  }

  // ---------------------------------------------------------------------
  // evaluate(at:)

  /** The coefficients folded with `add`, first to last. */
  function XorSum(c: seq<int>): int
  {
    if c == [] then 0 else Add(XorSum(c[..|c| - 1]), c[|c| - 1])
  }

  /** Horner's rule with the field's multiply: the value at x of the
      polynomial whose coefficients, highest degree first, are c. */
  function Horner(f: GenericGF, c: seq<int>, x: int): (r: int)
    requires f.Valid() && XorClosed(f) && c != [] && Elements(f, c) && 0 <= x < f.size
    ensures 0 <= r < f.size
  {
    if |c| == 1 then c[0] else Add(f.Multiply(x, Horner(f, c[..|c| - 1], x)), c[|c| - 1])
  }

  /** `evaluate(at:)`: the constant term at 0, the sum of the coefficients
      at 1 (0 for an empty list, which no initialiser produces), and
      Horner's rule elsewhere. */
  method Evaluate(p: Poly, x: int) returns (r: int)
    requires x != 1 ==> |p.coefficients| > 0
    requires x != 0 && x != 1 ==> InField(p) && XorClosed(p.field) && 0 <= x < p.field.size
    ensures x == 0 ==> r == Coefficient(p, 0)
    ensures x == 1 ==> r == XorSum(p.coefficients)
    ensures x != 0 && x != 1 ==> r == Horner(p.field, p.coefficients, x)
  {
    var c := p.coefficients;
    if x == 0 {
      r := Coefficient(p, 0);
    } else if x == 1 {
      r := 0;
      var i := 0;
      while i < |c|
        invariant 0 <= i <= |c|
        invariant r == XorSum(c[..i])
      {
        XorSumStep(c, i);
        r := Add(r, c[i]);
        i := i + 1;
      }
      assert c[..|c|] == c;
    } else {
      r := c[0];
      var i := 1;
      while i < |c|
        invariant 1 <= i <= |c|
        invariant r == Horner(p.field, c[..i], x)
      {
        HornerStep(p.field, c, x, i);
        r := Add(p.field.Multiply(x, r), c[i]);
        i := i + 1;
      }
      assert c[..|c|] == c;
    }
  }

  lemma XorSumStep(c: seq<int>, i: nat)
    requires i < |c|
    ensures XorSum(c[..i + 1]) == Add(XorSum(c[..i]), c[i])
  {
    assert c[..i + 1][..i] == c[..i];
  }

  lemma HornerStep(f: GenericGF, c: seq<int>, x: int, i: nat)
    requires f.Valid() && XorClosed(f) && Elements(f, c) && 0 <= x < f.size && 1 <= i < |c|
    ensures Horner(f, c[..i + 1], x) == Add(f.Multiply(x, Horner(f, c[..i], x)), c[i])
  {
    assert c[..i + 1][..i] == c[..i];
  }

  /** In a proper field both shortcuts of `evaluate` agree with Horner's
      rule: at 0 it leaves the constant term, at 1 the sum of all
      coefficients. */
  lemma {:induction false} HornerShortcuts(f: GenericGF, c: seq<int>)
    requires f.ProperField() && c != [] && Elements(f, c)
    ensures Horner(f, c, 0) == c[|c| - 1]
    ensures Horner(f, c, 1) == XorSum(c)
  {
    var last := c[|c| - 1];
    AddZero(last);
    if |c| == 1 {
      assert c[..0] == [];
    } else {
      var h1 := Horner(f, c[..|c| - 1], 1);
      HornerShortcuts(f, c[..|c| - 1]);
      MultiplyUnit(f, h1, h1);
    }
  }

  // ---------------------------------------------------------------------
  // add(other:)

  /** The coefficient list `add` builds before normalising: the terms of
      the longer list above the shorter one's degree, then the aligned
      terms added, the shorter list's term first. Lists of equal length
      take `self` as the shorter one. */
  function SumCoefficients(a: seq<int>, b: seq<int>): (r: seq<int>)
    ensures |r| == if |a| > |b| then |a| else |b|
  {
    var small := if |a| > |b| then b else a;
    var large := if |a| > |b| then a else b;
    var off := |large| - |small|;
    large[..off] + seq(|small|, k requires 0 <= k < |small| => Add(small[k], large[off + k]))
  }

  /** The coefficient of x^d in a list, 0 above its degree. */
  function CoefficientOrZero(c: seq<int>, d: nat): int
  {
    if d < |c| then c[|c| - 1 - d] else 0
  }

  /** Polynomial addition by degree: the coefficient of x^d in the sum is
      the xor of the two coefficients of x^d. */
  lemma SumCoefficientsByDegree(a: seq<int>, b: seq<int>, d: nat)
    ensures CoefficientOrZero(SumCoefficients(a, b), d) ==
      Xor(CoefficientOrZero(a, d), CoefficientOrZero(b, d))
  {
    var r := SumCoefficients(a, b);
    var ca, cb := CoefficientOrZero(a, d), CoefficientOrZero(b, d);
    XorZero(ca);
    XorZero(cb);
    XorComm(ca, cb);
    if d < |r| {
      var small := if |a| > |b| then b else a;
      var large := if |a| > |b| then a else b;
      var off := |large| - |small|;
      var i := |r| - 1 - d;
      if i >= off {
        assert r[i] == Add(small[i - off], large[i]);
      } else {
        assert r[i] == large[i];
      }
    }
  }

  /** Both operands are nonempty (`isZero` reads their heads) and, when
      both are nonzero, the normalising initialiser can slice the sum. */
  predicate AddDefined(self: Poly, other: Poly)
  {
    |self.coefficients| > 0 && |other.coefficients| > 0 &&
    (self.field == other.field && !IsZero(self) && !IsZero(other) ==>
      InitDefined(SumCoefficients(self.coefficients, other.coefficients)))
  }

  /** The outcome of `add(other:)`. */
  function AddResult(self: Poly, other: Poly): Result<Poly>
    requires AddDefined(self, other)
  {
    if self.field != other.field then Err(IllegalArgument)
    else if IsZero(self) then Ok(other)
    else if IsZero(other) then Ok(self)
    else Ok(MakePoly(self.field, SumCoefficients(self.coefficients, other.coefficients)))
  }

  /** `add(other:)`: copies the high terms of the longer list, then appends
      the sums of the aligned terms. */
  method AddPoly(self: Poly, other: Poly) returns (r: Result<Poly>)
    requires AddDefined(self, other)
    ensures r == AddResult(self, other)
  {
    if self.field != other.field {
      return Err(IllegalArgument);
    }
    if IsZero(self) {
      return Ok(other);
    }
    if IsZero(other) {
      return Ok(self);
    }
    var isSelfLarger := |self.coefficients| > |other.coefficients|;
    var smallerCoeffs := if isSelfLarger then other.coefficients else self.coefficients;
    var largerCoeffs := if isSelfLarger then self.coefficients else other.coefficients;
    var highOrderOffset := |largerCoeffs| - |smallerCoeffs|;
    var newCoefficients := largerCoeffs[..highOrderOffset];
    var idx := 0;
    while idx < |largerCoeffs|
      invariant 0 <= idx <= |largerCoeffs|
      invariant idx <= highOrderOffset ==> newCoefficients == largerCoeffs[..highOrderOffset]
      invariant idx > highOrderOffset ==>
        newCoefficients == largerCoeffs[..highOrderOffset] +
          seq(idx - highOrderOffset, k requires 0 <= k < idx - highOrderOffset =>
            Add(smallerCoeffs[k], largerCoeffs[highOrderOffset + k]))
    {
      if idx >= highOrderOffset {
        var value := Add(smallerCoeffs[idx - highOrderOffset], largerCoeffs[idx]);
        newCoefficients := newCoefficients + [value];
      }
      idx := idx + 1;
    }
    return Ok(MakePoly(self.field, newCoefficients));
  }

  /** `subtract(other:)` is `add`. */
  method SubtractPoly(self: Poly, other: Poly) returns (r: Result<Poly>)
    requires AddDefined(self, other)
    ensures r == AddResult(self, other)
  {
    r := AddPoly(self, other);
  }

  /** Zero is an identity on the left; on the right too, unless the left
      operand is itself zero-headed (then the result is Zero). A field
      mismatch is an error. */
  lemma AddIdentity(p: Poly, f: GenericGF)
    requires |p.coefficients| > 0
    ensures p.field == f ==> AddResult(f.Zero(), p) == Ok(p)
    ensures p.field == f ==> AddResult(p, f.Zero()) == if IsZero(p) then Ok(f.Zero()) else Ok(p)
    ensures p.field != f ==> AddResult(f.Zero(), p) == Err(IllegalArgument)
  {
  }

  /** Adding a nonzero polynomial to itself gives [0]: every aligned pair
      cancels, and the initialiser maps the all-zero list to [0]. */
  lemma AddSelfIsZero(p: Poly)
    requires |p.coefficients| > 0 && !IsZero(p)
    ensures AddDefined(p, p)
    ensures AddResult(p, p) == Ok(Poly(p.field, [0]))
  {
    var c := p.coefficients;
    var s := SumCoefficients(c, c);
    forall k | 0 <= k < |s|
      ensures s[k] == 0
    {
      assert s[k] == Add(c[k], c[k]);
      AddSelf(c[k]);
    }
    if |s| > 1 {
      assert forall k :: 0 <= k < |s[1..]| ==> s[1..][k] == 0;
      assert FirstNonzero(s[1..]).None?;
    } else {
      assert s == [0];
    }
  }

  /** `add` commutes, except when both operands are zero-headed (then it
      returns its argument). */
  lemma AddCommutes(a: Poly, b: Poly)
    requires AddDefined(a, b) && AddDefined(b, a)
    requires !(IsZero(a) && IsZero(b))
    ensures AddResult(a, b) == AddResult(b, a)
  {
    if a.field == b.field && !IsZero(a) && !IsZero(b) {
      var sa, sb := SumCoefficients(a.coefficients, b.coefficients), SumCoefficients(b.coefficients, a.coefficients);
      if |a.coefficients| == |b.coefficients| {
        forall k | 0 <= k < |sa|
          ensures sa[k] == sb[k]
        {
          assert sa[k] == Add(a.coefficients[k], b.coefficients[k]);
          assert sb[k] == Add(b.coefficients[k], a.coefficients[k]);
          XorComm(a.coefficients[k], b.coefficients[k]);
        }
      }
      assert sa == sb;
    }
  }

  // ---------------------------------------------------------------------
  // multiply(other:)

  /** Row i of the product loop after its first j inner steps, started
      from c: entry i + k has field.multiply(ca, b[k]) added, k < j. */
  function ProductRow(f: GenericGF, c: seq<int>, ca: int, b: seq<int>, i: nat, j: nat): (r: seq<int>)
    requires f.Valid() && 0 <= ca < f.size && Elements(f, b) && j <= |b| && i + j <= |c|
    ensures |r| == |c|
  {
    if j == 0 then c
    else
      var prev := ProductRow(f, c, ca, b, i, j - 1);
      prev[i + j - 1 := Add(prev[i + j - 1], f.Multiply(ca, b[j - 1]))]
  }

  /** The coefficient list of the product after the first n rows: from all
      zeros, row i adds a[i] * b[k] into entry i + k. */
  function ProductRows(f: GenericGF, a: seq<int>, b: seq<int>, n: nat): (r: seq<int>)
    requires f.Valid() && Elements(f, a) && Elements(f, b) && n <= |a| && |b| > 0
    ensures |r| == |a| + |b| - 1
  {
    if n == 0 then seq(|a| + |b| - 1, _ => 0)
    else ProductRow(f, ProductRows(f, a, b, n - 1), a[n - 1], b, n - 1, |b|)
  }

  /** What a row does to each entry. */
  lemma {:induction false} ProductRowAt(f: GenericGF, c: seq<int>, ca: int, b: seq<int>, i: nat, j: nat, k: nat)
    requires f.Valid() && 0 <= ca < f.size && Elements(f, b) && j <= |b| && i + j <= |c| && k < |c|
    ensures ProductRow(f, c, ca, b, i, j)[k] ==
      if i <= k < i + j then Add(c[k], f.Multiply(ca, b[k - i])) else c[k]
  {
    if j > 0 {
      ProductRowAt(f, c, ca, b, i, j - 1, k);
    }
  }

  /** Only row 0 reaches entry 0, so the leading coefficient of the
      product is the product of the leading coefficients. */
  lemma {:induction false} ProductRowsHead(f: GenericGF, a: seq<int>, b: seq<int>, n: nat)
    requires f.Valid() && Elements(f, a) && Elements(f, b) && 1 <= n <= |a| && |b| > 0
    ensures ProductRows(f, a, b, n)[0] == f.Multiply(a[0], b[0])
  {
    var prev := ProductRows(f, a, b, n - 1);
    ProductRowAt(f, prev, a[n - 1], b, n - 1, |b|, 0);
    if n > 1 {
      ProductRowsHead(f, a, b, n - 1);
    } else {
      AddZero(f.Multiply(a[0], b[0]));
    }
  }

  /** Only the last row reaches the last entry. */
  lemma {:induction false} ProductRowsLast(f: GenericGF, a: seq<int>, b: seq<int>, n: nat)
    requires f.Valid() && Elements(f, a) && Elements(f, b) && n <= |a| && |a| > 0 && |b| > 0
    ensures ProductRows(f, a, b, n)[|a| + |b| - 2] ==
      if n == |a| then f.Multiply(a[|a| - 1], b[|b| - 1]) else 0
  {
    if n > 0 {
      var prev := ProductRows(f, a, b, n - 1);
      ProductRowAt(f, prev, a[n - 1], b, n - 1, |b|, |a| + |b| - 2);
      ProductRowsLast(f, a, b, n - 1);
      if n == |a| {
        AddZero(f.Multiply(a[|a| - 1], b[|b| - 1]));
      }
    }
  }

  /** Multiplying by the constant 1 copies the coefficients. */
  lemma {:induction false} ProductRowsByOne(f: GenericGF, a: seq<int>, n: nat, k: nat)
    requires f.ProperField() && Elements(f, a) && n <= |a| && k < |a|
    ensures ProductRows(f, a, [1], n)[k] == if k < n then a[k] else 0
  {
    if n > 0 {
      var prev := ProductRows(f, a, [1], n - 1);
      ProductRowAt(f, prev, a[n - 1], [1], n - 1, 1, k);
      ProductRowsByOne(f, a, n - 1, k);
      if k == n - 1 {
        MultiplyUnit(f, a[k], a[k]);
        AddZero(a[k]);
      }
    }
  }

  /** Both operands are nonempty, their coefficients are elements (the
      table look-ups of `multiply`), and the product list can be sliced
      by the initialiser. */
  predicate MultiplyDefined(self: Poly, other: Poly)
  {
    |self.coefficients| > 0 && |other.coefficients| > 0 &&
    (self.field == other.field && !IsZero(self) && !IsZero(other) ==>
      InField(self) && InField(other) &&
      InitDefined(ProductRows(self.field, self.coefficients, other.coefficients, |self.coefficients|)))
  }

  /** The outcome of `multiply(other:)`. */
  function MultiplyResult(self: Poly, other: Poly): Result<Poly>
    requires MultiplyDefined(self, other)
  {
    if self.field != other.field then Err(IllegalArgument)
    else if IsZero(self) || IsZero(other) then Ok(self.field.Zero())
    else Ok(MakePoly(self.field, ProductRows(self.field, self.coefficients, other.coefficients, |self.coefficients|)))
  }

  /** `multiply(other:)`: the nested loops add each product a[i] * b[j]
      into entry i + j of a zero list. */
  method MultiplyPoly(self: Poly, other: Poly) returns (r: Result<Poly>)
    requires MultiplyDefined(self, other)
    ensures r == MultiplyResult(self, other)
  {
    if self.field != other.field {
      return Err(IllegalArgument);
    }
    if IsZero(self) || IsZero(other) {
      return Ok(self.field.Zero());
    }
    var f := self.field;
    var coeffsA, coeffsB := self.coefficients, other.coefficients;
    var newCoefficients := seq(|coeffsA| + |coeffsB| - 1, _ => 0);
    var idxA := 0;
    while idxA < |coeffsA|
      invariant 0 <= idxA <= |coeffsA|
      invariant newCoefficients == ProductRows(f, coeffsA, coeffsB, idxA)
    {
      newCoefficients := AddRow(f, newCoefficients, coeffsA[idxA], coeffsB, idxA);
      idxA := idxA + 1;
    }
    return Ok(MakePoly(f, newCoefficients));
  }

  /** The inner loop of `multiply(other:)`: adds coeffA * b[idxB] into
      entry idxA + idxB for every idxB. */
  method AddRow(f: GenericGF, c: seq<int>, coeffA: int, coeffsB: seq<int>, idxA: nat)
    returns (newCoefficients: seq<int>)
    requires f.Valid() && 0 <= coeffA < f.size && Elements(f, coeffsB) && idxA + |coeffsB| <= |c|
    ensures newCoefficients == ProductRow(f, c, coeffA, coeffsB, idxA, |coeffsB|)
  {
    newCoefficients := c;
    var idxB := 0;
    while idxB < |coeffsB|
      invariant 0 <= idxB <= |coeffsB|
      invariant newCoefficients == ProductRow(f, c, coeffA, coeffsB, idxA, idxB)
    {
      var value := newCoefficients[idxA + idxB];
      newCoefficients := newCoefficients[idxA + idxB := Add(value, f.Multiply(coeffA, coeffsB[idxB]))];
      idxB := idxB + 1;
    }
  }

  /** In a proper field the product of two nonzero polynomials keeps its
      full length |a| + |b| - 1 (its head is nonzero, so the initialiser
      leaves it alone), with the product of the heads first and of the
      constant terms last. */
  lemma ProductShape(self: Poly, other: Poly)
    requires InField(self) && InField(other) && self.field == other.field && self.field.ProperField()
    requires |self.coefficients| > 0 && |other.coefficients| > 0 && !IsZero(self) && !IsZero(other)
    ensures MultiplyDefined(self, other)
    ensures var a, b := self.coefficients, other.coefficients;
      var p := MultiplyResult(self, other).value.coefficients;
      |p| == |a| + |b| - 1 &&
      p[0] == self.field.Multiply(a[0], b[0]) != 0 &&
      p[|p| - 1] == self.field.Multiply(a[|a| - 1], b[|b| - 1])
  {
    var f, a, b := self.field, self.coefficients, other.coefficients;
    var p := ProductRows(f, a, b, |a|);
    ProductRowsHead(f, a, b, |a|);
    ProductRowsLast(f, a, b, |a|);
    MultiplyUnit(f, a[0], b[0]);
    MakePolyCases(f, p);
  }

  /** One is the identity of `multiply(other:)` on nonzero polynomials. */
  lemma MultiplyByOne(p: Poly)
    requires InField(p) && p.field.ProperField() && |p.coefficients| > 0 && !IsZero(p)
    ensures MultiplyDefined(p, p.field.One())
    ensures MultiplyResult(p, p.field.One()) == Ok(p)
  {
    var f, a := p.field, p.coefficients;
    var q := ProductRows(f, a, [1], |a|);
    forall k | 0 <= k < |a|
      ensures q[k] == a[k]
    {
      ProductRowsByOne(f, a, |a|, k);
    }
    assert q == a;
    MakePolyCases(f, a);
  }

  // ---------------------------------------------------------------------
  // multiply(value:) and multiply(degree:coefficient:)

  /** Each coefficient multiplied by v with the field's multiply (the
      `map` both scaling operations use). */
  function Scaled(f: GenericGF, c: seq<int>, v: int): (r: seq<int>)
    requires f.Valid() && Elements(f, c) && 0 <= v < f.size
    ensures |r| == |c|
  {
    seq(|c|, k requires 0 <= k < |c| => f.Multiply(c[k], v))
  }

  /** `multiply(value:)`: Zero for 0, the polynomial itself for 1, and the
      scaled list, normalised, otherwise. */
  function MultiplyScalar(p: Poly, value: int): (r: Poly)
    requires value != 0 && value != 1 ==>
      InField(p) && 0 <= value < p.field.size && InitDefined(Scaled(p.field, p.coefficients, value))
    ensures r.field == p.field
  {
    if value == 0 then p.field.Zero()
    else if value == 1 then p
    else MakePoly(p.field, Scaled(p.field, p.coefficients, value))
  }

  /** In a proper field both shortcuts agree with the general branch on a
      nonzero polynomial: scaling by 1 changes nothing, and scaling by 0
      gives an all-zero list, which the initialiser turns into Zero. */
  lemma ScalarShortcuts(p: Poly)
    requires InField(p) && p.field.ProperField() && |p.coefficients| > 0 && !IsZero(p)
    ensures InitDefined(Scaled(p.field, p.coefficients, 1))
    ensures MakePoly(p.field, Scaled(p.field, p.coefficients, 1)) == MultiplyScalar(p, 1)
    ensures InitDefined(Scaled(p.field, p.coefficients, 0))
    ensures MakePoly(p.field, Scaled(p.field, p.coefficients, 0)) == MultiplyScalar(p, 0)
  {
    var f, c := p.field, p.coefficients;
    var s1, s0 := Scaled(f, c, 1), Scaled(f, c, 0);
    forall k | 0 <= k < |c|
      ensures s1[k] == c[k]
    {
      MultiplyUnit(f, c[k], c[k]);
    }
    assert s1 == c;
    MakePolyCases(f, c);
    assert forall k :: 0 <= k < |s0| ==> s0[k] == 0;
    if |s0| > 1 {
      AllZeroStrips(s0);
      MakePolyCases(f, s0);
    } else {
      assert s0 == [0];
    }
  }

  /** Scaling a nonzero polynomial by v and then by v's inverse gives it
      back. */
  lemma ScalarInverse(p: Poly, v: int)
    requires InField(p) && p.field.ProperField() && |p.coefficients| > 0 && !IsZero(p)
    requires 1 <= v < p.field.size
    ensures InitDefined(Scaled(p.field, p.coefficients, v))
    ensures var q := MultiplyScalar(p, v);
      InField(q) && |q.coefficients| > 0 && !IsZero(q) &&
      InitDefined(Scaled(q.field, q.coefficients, p.field.MultInverse(v).value)) &&
      MultiplyScalar(q, p.field.MultInverse(v).value) == p
  {
    var f, c := p.field, p.coefficients;
    MultInverseCorrect(f, v);
    var w := f.MultInverse(v).value;
    ScaledNonzeroHead(p, v);
    if v == 1 {
      assert w == 1 by {
        MultiplyUnit(f, w, w);
      }
    } else {
      var s := Scaled(f, c, v);
      assert w != 1 by {
        MultiplyUnit(f, v, v);
      }
      var t := Scaled(f, s, w);
      forall k | 0 <= k < |c|
        ensures t[k] == c[k]
      {
        MultiplyAssoc(f, c[k], v, w);
        MultiplyUnit(f, c[k], c[k]);
      }
      assert t == c;
      MakePolyCases(f, c);
    }
  }

  /** Scaling a nonzero polynomial by a nonzero element keeps its head
      nonzero, so the initialiser leaves the scaled list alone. */
  lemma ScaledNonzeroHead(p: Poly, v: int)
    requires InField(p) && p.field.ProperField() && |p.coefficients| > 0 && !IsZero(p)
    requires 1 <= v < p.field.size
    ensures var s := Scaled(p.field, p.coefficients, v);
      InitDefined(s) && MakePoly(p.field, s) == Poly(p.field, s) && s[0] != 0 && Elements(p.field, s)
  {
    var s := Scaled(p.field, p.coefficients, v);
    MultiplyUnit(p.field, p.coefficients[0], v);
    MakePolyCases(p.field, s);
  }

  /** `multiply(degree:coefficient:)` as written: a negative degree is an
      error and coefficient 0 gives Zero; otherwise every coefficient is
      multiplied by `coefficient`, and the degree is not used. */
  function MultiplyByMonomial(p: Poly, degree: int, coefficient: int): (r: Result<Poly>)
    requires degree >= 0 && coefficient != 0 ==>
      InField(p) && 0 <= coefficient < p.field.size &&
      InitDefined(Scaled(p.field, p.coefficients, coefficient))
    ensures degree < 0 <==> r == Err(IllegalArgument)
    ensures r.Ok? ==> r.value.field == p.field
  {
    if degree < 0 then Err(IllegalArgument)
    else if coefficient == 0 then Ok(p.field.Zero())
    else Ok(MakePoly(p.field, Scaled(p.field, p.coefficients, coefficient)))
  }

  /** The result keeps the length of p whatever the degree, whereas the
      product with the monomial coefficient * x^degree is degree entries
      longer: the operation scales but does not shift. */
  lemma MonomialDoesNotShift(p: Poly, degree: nat, coefficient: int)
    requires InField(p) && p.field.ProperField() && |p.coefficients| > 0 && !IsZero(p)
    requires 1 <= coefficient < p.field.size
    ensures InitDefined(Scaled(p.field, p.coefficients, coefficient))
    ensures MultiplyByMonomial(p, degree, coefficient).Ok?
    ensures |MultiplyByMonomial(p, degree, coefficient).value.coefficients| == |p.coefficients|
    ensures var m := p.field.BuildMonomial(degree, coefficient).value;
      MultiplyDefined(p, m) && |MultiplyResult(p, m).value.coefficients| == |p.coefficients| + degree
  {
    var f, c := p.field, p.coefficients;
    var s := Scaled(f, c, coefficient);
    MultiplyUnit(f, c[0], coefficient);
    MakePolyCases(f, s);
    var mc := [coefficient] + seq(degree, _ => 0);
    MakePolyCases(f, mc);
    var m := f.BuildMonomial(degree, coefficient).value;
    assert m.coefficients == mc;
    ProductShape(p, m);
  }

  // ---------------------------------------------------------------------
  // divide(other:)

  /** The multiple of the divisor's leading term o0 that gives the
      dividend's leading term r0: r0 times the inverse of o0. */
  function CancelScale(f: GenericGF, r0: int, o0: int): int
    requires f.Valid() && 0 <= r0 < f.size && 1 <= o0 < f.size
  {
    f.Multiply(r0, f.MultInverse(o0).value)
  }

  /** The list one round of the division loop adds up: the dividend plus
      the divisor scaled by CancelScale (before normalising). */
  function ReducedCoefficients(self: Poly, other: Poly): seq<int>
    requires InField(self) && InField(other) && self.field == other.field
    requires |self.coefficients| > 0 && |other.coefficients| > 0 && other.coefficients[0] != 0
  {
    var f := self.field;
    SumCoefficients(self.coefficients,
      Scaled(f, other.coefficients, CancelScale(f, self.coefficients[0], other.coefficients[0])))
  }

  /** What `divide` needs to run to completion. The operands must be
      nonempty elements of a proper field; and since the shifting-free
      `multiply(degree:coefficient:)` only cancels the leading term when
      the degrees are equal, a nonzero dividend of higher degree than the
      divisor keeps its degree forever, so the dividend's degree may not
      exceed the divisor's. With equal degrees the reduced list must be
      one the initialiser can slice. */
  predicate DivideDefined(self: Poly, other: Poly)
  {
    |other.coefficients| > 0 &&
    (self.field == other.field && !IsZero(other) ==>
      self.field.ProperField() && InField(self) && InField(other) &&
      (|self.coefficients| < |other.coefficients| || IsZero(self) ||
        (|self.coefficients| == |other.coefficients| && InitDefined(ReducedCoefficients(self, other)))))
  }

  /** The outcome of `divide(other:)`: errors for a field mismatch or a
      zero divisor; (Zero, self) when the loop does not run; otherwise the
      single round's quotient [scale] and normalised remainder. */
  function DivideResult(self: Poly, other: Poly): Result<(Poly, Poly)>
    requires DivideDefined(self, other)
  {
    if self.field != other.field || IsZero(other) then Err(IllegalArgument)
    else if |self.coefficients| < |other.coefficients| || IsZero(self) then Ok((self.field.Zero(), self))
    else
      var f := self.field;
      Ok((Poly(f, [CancelScale(f, self.coefficients[0], other.coefficients[0])]),
          MakePoly(f, ReducedCoefficients(self, other))))
  }

  /** `divide(other:)`: subtracts scaled copies of the divisor while the
      remainder's degree is at least the divisor's and it is nonzero. */
  method Divide(self: Poly, other: Poly) returns (r: Result<(Poly, Poly)>)
    requires DivideDefined(self, other)
    ensures r == DivideResult(self, other)
  {
    if self.field != other.field {
      return Err(IllegalArgument);
    }
    if IsZero(other) {
      return Err(IllegalArgument);
    }
    var f := self.field;
    var quotient := f.Zero();
    var remainder := self;
    var leadingTerm := Coefficient(other, Degree(other));
    var inverseLeadingTerm := f.MultInverse(leadingTerm).value;
    ghost var rounds := 0;
    while Degree(remainder) >= Degree(other) && !IsZero(remainder)
      invariant 0 <= rounds <= 1
      invariant rounds == 0 ==> quotient == f.Zero() && remainder == self
      invariant rounds == 1 ==>
        Ok((quotient, remainder)) == DivideResult(self, other) &&
        (|remainder.coefficients| < |other.coefficients| ||
          (|remainder.coefficients| > 0 && IsZero(remainder)))
      decreases 1 - rounds
    {
      DivideRound(self, other);
      var degreeDifference := Degree(remainder) - Degree(other);
      var scale := f.Multiply(Coefficient(remainder, Degree(remainder)), inverseLeadingTerm);
      var currTerm := MultiplyByMonomial(other, degreeDifference, scale).value;
      var currQuotient := f.BuildMonomial(degreeDifference, scale).value;
      var q := AddPoly(quotient, currQuotient);
      quotient := q.value;
      var rem := AddPoly(remainder, currTerm);
      remainder := rem.value;
      rounds := rounds + 1;
    }
    return Ok((quotient, remainder));
  }

  /** The facts one round of the division loop needs, for a nonzero
      dividend of the divisor's degree. */
  lemma DivideRound(self: Poly, other: Poly)
    requires DivideDefined(self, other) && self.field == other.field && !IsZero(other)
    requires |self.coefficients| == |other.coefficients| && !IsZero(self)
    ensures var f := self.field;
      var scale := CancelScale(f, self.coefficients[0], other.coefficients[0]);
      var term := Poly(f, Scaled(f, other.coefficients, scale));
      1 <= scale < f.size &&
      InitDefined(Scaled(f, other.coefficients, scale)) &&
      MultiplyByMonomial(other, 0, scale) == Ok(term) &&
      f.BuildMonomial(0, scale) == Ok(Poly(f, [scale])) &&
      AddDefined(f.Zero(), Poly(f, [scale])) &&
      AddResult(f.Zero(), Poly(f, [scale])) == Ok(Poly(f, [scale])) &&
      AddDefined(self, term) &&
      AddResult(self, term) == Ok(MakePoly(f, ReducedCoefficients(self, other))) &&
      (|MakePoly(f, ReducedCoefficients(self, other)).coefficients| < |other.coefficients| ||
        MakePoly(f, ReducedCoefficients(self, other)).coefficients == [0])
  {
    var f := self.field;
    var o0 := other.coefficients[0];
    MultInverseCorrect(f, o0);
    var inv := f.MultInverse(o0).value;
    var scale := CancelScale(f, self.coefficients[0], o0);
    MultiplyUnit(f, self.coefficients[0], inv);
    ScaledNonzeroHead(other, scale);
    assert [scale] + seq(0, _ => 0) == [scale];
    MakePolyCases(f, [scale]);
    ReducedShape(self, other);
  }

  /** One round cancels the leading term: the reduced list starts with 0,
      and coefficient k is self[k] minus scale times other[k]; so the
      dividend is the quotient times the divisor plus this list. Its
      normalised form is [0] or shorter than the divisor. */
  lemma ReducedShape(self: Poly, other: Poly)
    requires DivideDefined(self, other) && self.field == other.field && !IsZero(other)
    requires |self.coefficients| == |other.coefficients| && !IsZero(self)
    ensures var f := self.field;
      var scale := CancelScale(f, self.coefficients[0], other.coefficients[0]);
      var s := ReducedCoefficients(self, other);
      |s| == |other.coefficients| && s[0] == 0 && Elements(f, s) &&
      f.Multiply(scale, other.coefficients[0]) == self.coefficients[0] &&
      (forall k :: 0 <= k < |s| ==>
        s[k] == Xor(self.coefficients[k], f.Multiply(other.coefficients[k], scale))) &&
      (|MakePoly(f, s).coefficients| < |other.coefficients| || MakePoly(f, s).coefficients == [0])
  {
    var f := self.field;
    var a, b := self.coefficients, other.coefficients;
    MultInverseCorrect(f, b[0]);
    var inv := f.MultInverse(b[0]).value;
    var scale := CancelScale(f, a[0], b[0]);
    var t := Scaled(f, b, scale);
    var s := ReducedCoefficients(self, other);
    forall k | 0 <= k < |s|
      ensures s[k] == Xor(a[k], t[k]) && 0 <= s[k] < f.size
    {
      assert s[k] == Add(a[k], t[k]);
      XorComm(a[k], t[k]);
    }
    // scale * b0 = a0 * inv * b0 = a0
    MultiplyAssoc(f, a[0], inv, b[0]);
    MultiplyUnit(f, a[0], a[0]);
    MultiplyUnit(f, scale, b[0]);
    assert t[0] == a[0];
    XorSelf(a[0]);
    ShortOrZero(f, s);
  }

  /** The initialiser on a list of elements with a zero head gives [0] or
      a strictly shorter list: it slices at a nonzero value, which is at
      least 1. */
  lemma ShortOrZero(f: GenericGF, s: seq<int>)
    requires |s| > 0 && s[0] == 0 && InitDefined(s)
    requires forall k :: 0 <= k < |s| ==> 0 <= s[k]
    ensures |MakePoly(f, s).coefficients| < |s| || MakePoly(f, s).coefficients == [0]
  {
    if |s| == 1 {
      assert s == [0];
    }
  }

  /** On return the remainder is zero or of lower degree than the
      divisor. */
  lemma DivideRemainder(self: Poly, other: Poly)
    requires DivideDefined(self, other)
    requires DivideResult(self, other).Ok?
    ensures var rem := DivideResult(self, other).value.1;
      |rem.coefficients| < |other.coefficients| || (|rem.coefficients| > 0 && IsZero(rem))
  {
    if |self.coefficients| >= |other.coefficients| && !IsZero(self) {
      ReducedShape(self, other);
    }
  }

  // ---------------------------------------------------------------------
  // Facts other modules use

  /** The initialiser keeps elements elements: it returns a suffix of its
      input or [0]. */
  lemma MakePolyElements(f: GenericGF, s: seq<int>)
    requires f.size >= 1 && InitDefined(s) && Elements(f, s)
    ensures Elements(f, MakePoly(f, s).coefficients)
  {
  }

  /** Scaling by one changes nothing in a proper field. */
  lemma ScaledByOne(f: GenericGF, c: seq<int>)
    requires f.ProperField() && Elements(f, c)
    ensures Scaled(f, c, 1) == c
  {
    forall k | 0 <= k < |c|
      ensures Scaled(f, c, 1)[k] == c[k]
    {
      MultiplyUnit(f, c[k], 1);
    }
  }

  /** Every entry of the product list is an element. */
  lemma {:induction false} ProductRowsElements(f: GenericGF, a: seq<int>, b: seq<int>, n: nat)
    requires f.Valid() && XorClosed(f) && f.size >= 2
    requires Elements(f, a) && Elements(f, b) && n <= |a| && |b| > 0
    ensures Elements(f, ProductRows(f, a, b, n))
  {
    if n > 0 {
      ProductRowsElements(f, a, b, n - 1);
      var prev := ProductRows(f, a, b, n - 1);
      forall k | 0 <= k < |prev|
        ensures 0 <= ProductRows(f, a, b, n)[k] < f.size
      {
        ProductRowAt(f, prev, a[n - 1], b, n - 1, |b|, k);
      }
    }
  }

  /** The product of two monic polynomials is monic, an element list, and
      as long as the two lengths add up to, less one. */
  lemma MonicProduct(p: Poly, q: Poly)
    requires InField(p) && InField(q) && p.field == q.field && p.field.ProperField()
    requires |p.coefficients| > 0 && |q.coefficients| > 0
    requires p.coefficients[0] == 1 && q.coefficients[0] == 1
    ensures MultiplyDefined(p, q)
    ensures var g := MultiplyResult(p, q).value;
      g.field == p.field && InField(g) && |g.coefficients| == |p.coefficients| + |q.coefficients| - 1 &&
      g.coefficients[0] == 1
  {
    var f := p.field;
    ProductShape(p, q);
    MultiplyUnit(f, 1, 1);
    ProductRowsElements(f, p.coefficients, q.coefficients, |p.coefficients|);
    MakePolyElements(f, ProductRows(f, p.coefficients, q.coefficients, |p.coefficients|));
  }
}
