/** Algebraic laws of the polynomial operations of ZXGenericGFPoly.swift.
    Addition should be its own inverse, and `multiply(other:)` should agree
    with `evaluate(at:)`. The first fails as written, because the
    initialiser slices a zero-headed sum at the wrong place; a normalised
    addition restores it. The second holds for nonzero polynomials over a
    field whose multiplication distributes over xor. */
module PolyAlgebra {
  import opened Bits
  import opened Errors
  import opened GenericGF
  import opened GenericGFPoly
  import Bch
  import QRField256

  // ---------------------------------------------------------------------
  // add(other:): the inverse law

  /** A coefficient list in normal form: [0], or a nonzero head. */
  predicate Canonical(c: seq<int>)
  {
    c == [0] || (c != [] && c[0] != 0)
  }

  /** As written, adding q twice to p need not give p back.
      [1, 0, 5] + [1, 0, 4] sums to [0, 0, 1]. The initialiser slices it
      at the first nonzero *value*, 1, which leaves the zero-headed
      [0, 1]. `add` then takes [0, 1] for zero and returns q unchanged,
      so the second addition gives [1, 0, 4], not [1, 0, 5]. */
  lemma AddTwiceAsWritten(f: GenericGF)
    ensures AddDefined(Poly(f, [1, 0, 5]), Poly(f, [1, 0, 4]))
    ensures AddResult(Poly(f, [1, 0, 5]), Poly(f, [1, 0, 4])) == Ok(Poly(f, [0, 1]))
    ensures AddDefined(Poly(f, [0, 1]), Poly(f, [1, 0, 4]))
    ensures AddResult(Poly(f, [0, 1]), Poly(f, [1, 0, 4])) == Ok(Poly(f, [1, 0, 4]))
  {
    var s := SumCoefficients([1, 0, 5], [1, 0, 4]);
    AddSelf(1);
    AddSelf(0);
    assert Add(5, 4) == 1 by {
      NatXorSplit(4, 5, 2, 0, 2, 1);
      NatXorSelf(2);
    }
    assert s == [0, 0, 1];
    assert s[1..] == [0, 1];
    assert FirstNonzeroFrom([0, 1], 1) == Some(1);
  }

  /** The addition the initialiser's comment intends: the same sum of
      coefficients, with the zero terms ahead of the first nonzero one
      stripped. */
  function AddNormalised(self: Poly, other: Poly): (r: Result<Poly>)
    ensures self.field != other.field <==> r == Err(IllegalArgument)
    ensures r.Ok? ==> r.value.field == self.field && Canonical(r.value.coefficients)
  {
    if self.field != other.field then Err(IllegalArgument)
    else Ok(Poly(self.field, StripLeadingZeros(SumCoefficients(self.coefficients, other.coefficients))))
  }

  /** Stripping leading zeros keeps the coefficient of every degree. */
  lemma {:induction false} StripByDegree(c: seq<int>, d: nat)
    ensures CoefficientOrZero(StripLeadingZeros(c), d) == CoefficientOrZero(c, d)
    decreases |c|
  {
    if c != [] && c[0] == 0 && |c| > 1 {
      StripByDegree(c[1..], d);
    }
  }

  /** Two lists in normal form with the same coefficient at every degree
      are equal. */
  lemma CanonicalByDegree(a: seq<int>, b: seq<int>)
    requires Canonical(a) && Canonical(b)
    requires forall d: nat :: CoefficientOrZero(a, d) == CoefficientOrZero(b, d)
    ensures a == b
  {
    CanonicalLength(a, b);
    forall i | 0 <= i < |a|
      ensures a[i] == b[i]
    {
      assert CoefficientOrZero(a, |a| - 1 - i) == CoefficientOrZero(b, |a| - 1 - i);
    }
  }

  /** The degree of a list in normal form is that of its nonzero head,
      so two of them that agree at both degrees have the same length. */
  lemma CanonicalLength(a: seq<int>, b: seq<int>)
    requires Canonical(a) && Canonical(b)
    requires CoefficientOrZero(a, |a| - 1) == CoefficientOrZero(b, |a| - 1)
    requires CoefficientOrZero(a, |b| - 1) == CoefficientOrZero(b, |b| - 1)
    ensures |a| == |b|
  {
  }

  /** The normalised sum has at each degree the xor of the operands'
      coefficients of that degree. */
  lemma AddNormalisedByDegree(self: Poly, other: Poly, d: nat)
    requires self.field == other.field
    ensures CoefficientOrZero(AddNormalised(self, other).value.coefficients, d) ==
      Xor(CoefficientOrZero(self.coefficients, d), CoefficientOrZero(other.coefficients, d))
  {
    StripByDegree(SumCoefficients(self.coefficients, other.coefficients), d);
    SumCoefficientsByDegree(self.coefficients, other.coefficients, d);
  }

  /** Adding q twice to a polynomial in normal form gives it back. */
  lemma AddNormalisedTwice(p: Poly, q: Poly)
    requires p.field == q.field && Canonical(p.coefficients)
    ensures AddNormalised(AddNormalised(p, q).value, q) == Ok(p)
  {
    var r1 := AddNormalised(p, q).value;
    var r2 := AddNormalised(r1, q).value;
    forall d: nat
      ensures CoefficientOrZero(r2.coefficients, d) == CoefficientOrZero(p.coefficients, d)
    {
      AddNormalisedByDegree(p, q, d);
      AddNormalisedByDegree(r1, q, d);
      XorCancel(CoefficientOrZero(p.coefficients, d), CoefficientOrZero(q.coefficients, d));
    }
    CanonicalByDegree(r2.coefficients, p.coefficients);
  }

  /** When both operands are nonzero and their sum keeps a nonzero head
      (always so for different lengths), `add` as written gives the
      normalised sum. */
  lemma AddAgreesWithNormalised(p: Poly, q: Poly)
    requires p.field == q.field && Canonical(p.coefficients) && Canonical(q.coefficients)
    requires !IsZero(p) && !IsZero(q)
    requires SumCoefficients(p.coefficients, q.coefficients)[0] != 0
    ensures AddDefined(p, q) && AddResult(p, q) == AddNormalised(p, q)
  {
    MakePolyCases(p.field, SumCoefficients(p.coefficients, q.coefficients));
  }

  // ---------------------------------------------------------------------
  // multiply(other:) and evaluate(at:)

  /** Distributivity, stated with the field's `add`. */
  lemma Distribute(f: GenericGF, a: int, b: int, c: int)
    requires f.ProperField() && Distributive(f)
    requires 0 <= a < f.size && 0 <= b < f.size && 0 <= c < f.size
    ensures f.Multiply(a, Add(b, c)) == Add(f.Multiply(a, b), f.Multiply(a, c))
  {
    assert f.Multiply(a, Xor(c, b)) == Xor(f.Multiply(a, c), f.Multiply(a, b));
  }

  /** Distributivity on the right. */
  lemma DistributeRight(f: GenericGF, a: int, b: int, c: int)
    requires f.ProperField() && Distributive(f)
    requires 0 <= a < f.size && 0 <= b < f.size && 0 <= c < f.size
    ensures f.Multiply(Add(b, c), a) == Add(f.Multiply(b, a), f.Multiply(c, a))
  {
    Distribute(f, a, b, c);
    MultiplyUnit(f, a, b);
    MultiplyUnit(f, a, c);
    MultiplyUnit(f, a, Add(b, c));
  }

  /** Sums of four field elements may be regrouped. */
  lemma AddSwapMiddle(p: nat, q: nat, r: nat, s: nat)
    ensures Add(Add(p, q), Add(r, s)) == Add(Add(p, r), Add(q, s))
  {
    XorComm(p, q);
    XorComm(r, s);
    XorComm(p, r);
    XorComm(q, s);
    XorComm(Add(p, q), Add(r, s));
    XorComm(Add(p, r), Add(q, s));
    Bch.NatXorSwapMiddle(p, q, r, s);
  }

  /** x * (c * h) == c * (x * h). */
  lemma MultiplyExchange(f: GenericGF, x: int, c: int, h: int)
    requires f.ProperField() && 0 <= x < f.size && 0 <= c < f.size && 0 <= h < f.size
    ensures f.Multiply(x, f.Multiply(c, h)) == f.Multiply(c, f.Multiply(x, h))
  {
    MultiplyAssoc(f, x, c, h);
    MultiplyAssoc(f, c, x, h);
    MultiplyUnit(f, x, c);
  }

  function Zeros(m: nat): (z: seq<int>)
    ensures |z| == m && forall k :: 0 <= k < m ==> z[k] == 0
  {
    seq(m, _ => 0)
  }

  /** A zero term ahead of a list does not change its value. */
  lemma {:induction false} HornerLeadingZero(f: GenericGF, t: seq<int>, x: int)
    requires f.ProperField() && t != [] && Elements(f, t) && 0 <= x < f.size
    ensures Elements(f, [0] + t) && Horner(f, [0] + t, x) == Horner(f, t, x)
    decreases |t|
  {
    if |t| == 1 {
      HornerZeroThen(f, t, x);
    } else {
      HornerLeadingZero(f, t[..|t| - 1], x);
      HornerLeadingZeroStep(f, t, x);
    }
  }

  /** [0, c] evaluates to c. */
  lemma HornerZeroThen(f: GenericGF, t: seq<int>, x: int)
    requires f.ProperField() && |t| == 1 && 0 <= t[0] < f.size && 0 <= x < f.size
    ensures Elements(f, [0] + t) && Horner(f, [0] + t, x) == t[0]
  {
    assert ([0] + t)[..1] == [0];
    AddZero(t[0]);
  }

  /** A longer list inherits the law from the list without its last term. */
  lemma HornerLeadingZeroStep(f: GenericGF, t: seq<int>, x: int)
    requires f.ProperField() && |t| > 1 && Elements(f, t) && 0 <= x < f.size
    requires Horner(f, [0] + t[..|t| - 1], x) == Horner(f, t[..|t| - 1], x)
    ensures Horner(f, [0] + t, x) == Horner(f, t, x)
  {
    assert ([0] + t)[..|t|] == [0] + t[..|t| - 1];
  }

  /** Zero terms ahead of a list do not change its value. */
  lemma {:induction false} HornerLeadingZeros(f: GenericGF, m: nat, s: seq<int>, x: int)
    requires f.ProperField() && s != [] && Elements(f, s) && 0 <= x < f.size
    ensures Elements(f, Zeros(m) + s) && Horner(f, Zeros(m) + s, x) == Horner(f, s, x)
  {
    if m == 0 {
      assert Zeros(m) + s == s;
    } else {
      var t := Zeros(m - 1) + s;
      assert Zeros(m) + s == [0] + t;
      HornerLeadingZeros(f, m - 1, s, x);
      HornerLeadingZero(f, t, x);
    }
  }

  /** A zero constant term multiplies the value of the rest by x. */
  lemma HornerAppendZero(f: GenericGF, u: seq<int>, x: int)
    requires f.ProperField() && u != [] && Elements(f, u) && 0 <= x < f.size
    ensures Elements(f, u + [0]) && Horner(f, u + [0], x) == f.Multiply(x, Horner(f, u, x))
  {
    assert (u + [0])[..|u|] == u;
    AddZero(f.Multiply(x, Horner(f, u, x)));
  }

  /** Evaluation is additive: the value of a termwise sum is the sum of
      the values. */
  lemma {:induction false} HornerSum(f: GenericGF, u: seq<int>, v: seq<int>, w: seq<int>, x: int)
    requires f.ProperField() && Distributive(f) && 0 <= x < f.size
    requires |u| == |v| == |w| > 0 && Elements(f, u) && Elements(f, v) && Elements(f, w)
    requires forall k :: 0 <= k < |w| ==> w[k] == Add(u[k], v[k])
    ensures Horner(f, w, x) == Add(Horner(f, u, x), Horner(f, v, x))
    decreases |w|
  {
    var n := |w|;
    if n > 1 {
      var u', v', w' := u[..n - 1], v[..n - 1], w[..n - 1];
      HornerSum(f, u', v', w', x);
      var hu, hv := Horner(f, u', x), Horner(f, v', x);
      Distribute(f, x, hu, hv);
      AddSwapMiddle(f.Multiply(x, hu), f.Multiply(x, hv), u[n - 1], v[n - 1]);
    }
  }

  /** The coefficients of b each multiplied by c (the row `multiply` adds
      for one coefficient c of the other operand). */
  function Row(f: GenericGF, c: int, b: seq<int>): (r: seq<int>)
    requires f.ProperField() && 0 <= c < f.size && Elements(f, b)
    ensures |r| == |b| && Elements(f, r)
  {
    seq(|b|, k requires 0 <= k < |b| => f.Multiply(c, b[k]))
  }

  /** A scaled list evaluates to the scaled value. */
  lemma {:induction false} HornerRow(f: GenericGF, c: int, b: seq<int>, x: int)
    requires f.ProperField() && Distributive(f) && 0 <= c < f.size && b != [] && Elements(f, b) && 0 <= x < f.size
    ensures Horner(f, Row(f, c, b), x) == f.Multiply(c, Horner(f, b, x))
    decreases |b|
  {
    var n := |b|;
    if n > 1 {
      var b' := b[..n - 1];
      assert Row(f, c, b)[..n - 1] == Row(f, c, b');
      HornerRow(f, c, b', x);
      var h := Horner(f, b', x);
      MultiplyExchange(f, x, c, h);
      Distribute(f, c, f.Multiply(x, h), b[n - 1]);
    }
  }

  /** Rows of `multiply` applied to a list with a zero appended act on the
      list and leave the appended zero alone. */
  lemma {:induction false} ProductRowAppendZero(f: GenericGF, c: seq<int>, ca: int, b: seq<int>, i: nat, j: nat)
    requires f.Valid() && 0 <= ca < f.size && Elements(f, b) && j <= |b| && i + j <= |c|
    ensures ProductRow(f, c + [0], ca, b, i, j) == ProductRow(f, c, ca, b, i, j) + [0]
  {
    if j > 0 {
      ProductRowAppendZero(f, c, ca, b, i, j - 1);
    }
  }

  /** The first rows of a product only use the first coefficients of a:
      before the last row, the product list is that of a without its last
      coefficient, with one zero appended. */
  lemma {:induction false} ProductRowsPrefix(f: GenericGF, a: seq<int>, b: seq<int>, n: nat)
    requires f.Valid() && Elements(f, a) && Elements(f, b) && |b| > 0 && n < |a|
    ensures ProductRows(f, a, b, n) == ProductRows(f, a[..|a| - 1], b, n) + [0]
  {
    var a' := a[..|a| - 1];
    if n == 0 {
      assert ProductRows(f, a, b, 0) == ProductRows(f, a', b, 0) + [0];
    } else {
      ProductRowsPrefix(f, a, b, n - 1);
      assert a'[n - 1] == a[n - 1];
      ProductRowAppendZero(f, ProductRows(f, a', b, n - 1), a[n - 1], b, n - 1, |b|);
    }
  }

  /** A product with one row: the other operand scaled. */
  lemma ProductOneRow(f: GenericGF, a: seq<int>, b: seq<int>)
    requires f.ProperField() && |a| == 1 && b != [] && Elements(f, a) && Elements(f, b)
    ensures ProductRows(f, a, b, 1) == Row(f, a[0], b)
  {
    var p, row := ProductRows(f, a, b, 1), Row(f, a[0], b);
    forall k | 0 <= k < |b|
      ensures p[k] == row[k]
    {
      ProductRowAt(f, ProductRows(f, a, b, 0), a[0], b, 0, |b|, k);
      AddZero(row[k]);
    }
  }

  /** The last row of a product: the product list is that of a without
      its last coefficient c, shifted up one degree, plus the row of c. */
  lemma ProductLastRow(f: GenericGF, a: seq<int>, b: seq<int>)
    requires f.ProperField() && |a| > 1 && b != [] && Elements(f, a) && Elements(f, b)
    ensures var m := |a| - 1;
      var p, u, z := ProductRows(f, a, b, |a|), ProductRows(f, a[..m], b, m) + [0], Zeros(m) + Row(f, a[m], b);
      |p| == |u| == |z| && forall k :: 0 <= k < |p| ==> p[k] == Add(u[k], z[k])
  {
    var m := |a| - 1;
    var u, z := ProductRows(f, a[..m], b, m) + [0], Zeros(m) + Row(f, a[m], b);
    ProductRowsPrefix(f, a, b, m);
    forall k | 0 <= k < |u|
      ensures ProductRows(f, a, b, |a|)[k] == Add(u[k], z[k])
    {
      ProductRowAt(f, u, a[m], b, m, |b|, k);
      AddZero(u[k]);
    }
  }

  /** The coefficient list `multiply` builds evaluates to the product of
      the operands' values: the product of polynomials is a polynomial
      product. */
  lemma {:induction false} HornerProduct(f: GenericGF, a: seq<int>, b: seq<int>, x: int)
    requires f.ProperField() && Distributive(f) && 0 <= x < f.size
    requires a != [] && b != [] && Elements(f, a) && Elements(f, b)
    ensures Elements(f, ProductRows(f, a, b, |a|))
    ensures Horner(f, ProductRows(f, a, b, |a|), x) == f.Multiply(Horner(f, a, x), Horner(f, b, x))
    decreases |a|
  {
    ProductRowsElements(f, a, b, |a|);
    var m := |a| - 1;
    var c := a[m];
    HornerRow(f, c, b, x);
    if m == 0 {
      ProductOneRow(f, a, b);
    } else {
      var a' := a[..m];
      var p' := ProductRows(f, a', b, m);
      ProductRowsElements(f, a', b, m);
      HornerLeadingZeros(f, m, Row(f, c, b), x);
      HornerAppendZero(f, p', x);
      ProductLastRow(f, a, b);
      HornerSum(f, p' + [0], Zeros(m) + Row(f, c, b), ProductRows(f, a, b, |a|), x);
      HornerProduct(f, a', b, x);
      var ha, hb := Horner(f, a', x), Horner(f, b, x);
      MultiplyAssoc(f, x, ha, hb);
      DistributeRight(f, hb, f.Multiply(x, ha), c);
    }
  }

  /** For nonzero polynomials over a field, the value at any x of the
      result of `multiply(other:)` is the product of the operands' values. */
  lemma MultiplyEvaluates(p: Poly, q: Poly, x: int)
    requires InField(p) && InField(q) && p.field == q.field
    requires p.field.ProperField() && Distributive(p.field) && 0 <= x < p.field.size
    requires |p.coefficients| > 0 && |q.coefficients| > 0 && !IsZero(p) && !IsZero(q)
    ensures MultiplyDefined(p, q)
    ensures var r := MultiplyResult(p, q).value;
      InField(r) && |r.coefficients| > 0 &&
      Horner(p.field, r.coefficients, x) ==
        p.field.Multiply(Horner(p.field, p.coefficients, x), Horner(p.field, q.coefficients, x))
  {
    var f, a, b := p.field, p.coefficients, q.coefficients;
    var prod := ProductRows(f, a, b, |a|);
    ProductShape(p, q);
    ProductRowsHead(f, a, b, |a|);
    MakePolyCases(f, prod);
    HornerProduct(f, a, b, x);
  }

  /** The same law over the QR code field, where distributivity is
      proved rather than assumed. */
  lemma QRMultiplyEvaluates(p: Poly, q: Poly, x: int)
    requires QRField256.IsQRField(p.field) && InField(p) && InField(q) && p.field == q.field
    requires 0 <= x < p.field.size
    requires |p.coefficients| > 0 && |q.coefficients| > 0 && !IsZero(p) && !IsZero(q)
    ensures p.field.ProperField() && MultiplyDefined(p, q)
    ensures var r := MultiplyResult(p, q).value;
      InField(r) && |r.coefficients| > 0 &&
      Horner(p.field, r.coefficients, x) ==
        p.field.Multiply(Horner(p.field, p.coefficients, x), Horner(p.field, q.coefficients, x))
  {
    QRField256.QRFieldDistributive(p.field);
    MultiplyEvaluates(p, q, x);
  }

  /** As written the law fails for zero-headed operands, which the
      initialiser can produce: [0, 1] is the constant 1, yet `multiply`
      takes it for zero, so [0, 1] times One is Zero. */
  lemma MultiplyZeroHeadedAsWritten(f: GenericGF, x: int)
    requires f.ProperField() && 0 <= x < f.size
    ensures MultiplyDefined(Poly(f, [0, 1]), f.One())
    ensures MultiplyResult(Poly(f, [0, 1]), f.One()) == Ok(f.Zero())
    ensures Horner(f, [0, 1], x) == 1 && Horner(f, f.One().coefficients, x) == 1
    ensures Horner(f, f.Zero().coefficients, x) == 0 != f.Multiply(1, 1)
  {
    assert [0, 1][..1] == [0];
    AddZero(1);
    MultiplyUnit(f, 1, 1);
  }
}
