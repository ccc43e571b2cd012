/** `ZXErrorCorrectionLevel`: the four QR error-correction levels and their
    two-bit codes in the format information (ISO/IEC 18004:2006 section
    6.9). */
module ErrorCorrectionLevels {
  import opened Errors

  datatype ErrorCorrectionLevel = L | M | Q | H

  /** `defaultLevel`. */
  const DefaultLevel: ErrorCorrectionLevel := L

  /** `values`, in declaration order. */
  const Values: seq<ErrorCorrectionLevel> := [L, M, Q, H]

  /** `bits`: the raw value L=1, M=0, Q=3, H=2. */
  function Bits(level: ErrorCorrectionLevel): (r: int)
    ensures 0 <= r <= 3
  {
    match level
    case L => 1
    case M => 0
    case Q => 3
    case H => 2
  }

  /** The position of x in s, or -1 (`index(of:)`). */
  function IndexOf<T(==)>(s: seq<T>, x: T): (r: int)
    ensures -1 <= r < |s|
    ensures r == -1 <==> x !in s
    ensures r >= 0 ==> s[r] == x && forall j :: 0 <= j < r ==> s[j] != x
  {
    if s == [] then -1
    else if s[0] == x then 0
    else
      var i := IndexOf(s[1..], x);
      if i == -1 then -1 else i + 1
  }

  /** `ordinal`: the position in `values`; the `?? -1` fallback is never
      taken. */
  function Ordinal(level: ErrorCorrectionLevel): (r: int)
    ensures 0 <= r < 4 && Values[r] == level
  {
    assert level == Values[0] || level == Values[1] || level == Values[2] || level == Values[3];
    IndexOf(Values, level)
  }

  /** `lookup(for:)`: the level whose raw value is `lookupBits`, if any. */
  function Lookup(lookupBits: int): (r: Option<ErrorCorrectionLevel>)
    ensures r.Some? <==> 0 <= lookupBits <= 3
    ensures r.Some? ==> Bits(r.value) == lookupBits
  {
    if lookupBits == 1 then Some(L)
    else if lookupBits == 0 then Some(M)
    else if lookupBits == 3 then Some(Q)
    else if lookupBits == 2 then Some(H)
    else None
  }

  /** Looking up a level's bits gives the level back, so the codes are
      distinct. */
  lemma LookupBits(level: ErrorCorrectionLevel)
    ensures Lookup(Bits(level)) == Some(level)
  {
  }

  /** Distinct levels have distinct codes and distinct ordinals. */
  lemma BitsInjective(a: ErrorCorrectionLevel, b: ErrorCorrectionLevel)
    ensures Bits(a) == Bits(b) ==> a == b
    ensures Ordinal(a) == Ordinal(b) ==> a == b
  {
    LookupBits(a);
    LookupBits(b);
  }
}
