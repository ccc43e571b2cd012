/** The bit helpers of IntegerUtils.swift: `nonzeroBitCount`, `bitWidth`
    and `toBitArray` on `Int`, and `^` on `Bool`. The `UInt8` and `UInt32`
    extensions repeat the same loops word for word; they are the methods
    below applied to values in 0..255 and 0..2^32-1 (see FixedWidthBits). */
module IntegerUtils {
  import opened Bits

  /** `nonzeroBitCount`: the number of set bits, counted by shifting right
      while the value is positive (so 0 for values <= 0). */
  method NonzeroBitCount(v: int) returns (r: int)
    ensures r == CountTrue(LsbBits(v))
    ensures r <= BitLength(v)
    ensures v > 0 ==> r >= 1
  {
    r := 0;
    var value := v;
    while value > 0
      invariant value >= 0 || value == v
      invariant r + PopCount(value) == PopCount(v)
      decreases if value < 0 then 0 else value
    {
      AndOne(value);
      if And(value, 1) == 1 {
        r := r + 1;
      }
      value := value / 2;
    }
    PopCountBits(v);
    CountTrueAtMost(LsbBits(v));
    if v > 0 {
      LsbBitsValue(v);
      LastTrueCounts(LsbBits(v));
    }
  }

  lemma {:induction false} LastTrueCounts(s: seq<bool>)
    requires s != [] && s[|s| - 1]
    ensures CountTrue(s) >= 1
  {
    if !s[0] {
      LastTrueCounts(s[1..]);
    }
  }

  /** `bitWidth`: the number of significant bits; for a positive value
      2^(r-1) <= v < 2^r, and 0 for values <= 0. */
  method BitWidth(v: int) returns (r: int)
    ensures v <= 0 ==> r == 0
    ensures v > 0 ==> r >= 1 && Pow2(r - 1) <= v < Pow2(r)
    ensures r == BitLength(v)
  {
    r := 0;
    var value := v;
    while value > 0
      invariant value >= 0 || value == v
      invariant r + BitLength(value) == BitLength(v)
      decreases if value < 0 then 0 else value
    {
      r := r + 1;
      value := value / 2;
    }
    if v > 0 {
      BitLengthBounds(v);
    }
  }

  /** `toBitArray(msbFirst:)`: the significant bits, least significant
      first, reversed in place when `msbFirst` is set. */
  method ToBitArray(v: int, msbFirst: bool) returns (r: seq<bool>)
    ensures |r| == BitLength(v)
    ensures !msbFirst ==> r == LsbBits(v)
    ensures msbFirst ==> r == Reverse(LsbBits(v))
    ensures v >= 0 ==> (if msbFirst then ValueMsb(r) else ValueLsb(r)) == v
    ensures v > 0 && msbFirst ==> r[0]
  {
    r := [];
    var value := v;
    while value > 0
      invariant value >= 0 || value == v
      invariant r + LsbBits(value) == LsbBits(v)
      decreases if value < 0 then 0 else value
    {
      AndOne(value);
      var bit := And(value, 1) == 1;
      LsbBitsStep(r, value);
      r := r + [bit];
      value := value / 2;
    }
    assert r == LsbBits(v);
    LsbFacts(v);
    if msbFirst {
      r := Reverse(r);
    }
  }

  /** One round of the `toBitArray` loop: the low bit moves from the value
      to the end of the list built so far. */
  lemma LsbBitsStep(r: seq<bool>, value: nat)
    requires value > 0
    ensures r + LsbBits(value) == (r + [value % 2 == 1]) + LsbBits(value / 2)
  {
    var bit := value % 2 == 1;
    var rest := LsbBits(value / 2);
    assert LsbBits(value) == [bit] + rest;
    AppendAssoc(r, [bit], rest);
  }

  lemma LsbFacts(v: int)
    ensures |LsbBits(v)| == BitLength(v)
    ensures v >= 0 ==> ValueLsb(LsbBits(v)) == v && ValueMsb(Reverse(LsbBits(v))) == v
    ensures v > 0 ==> Reverse(LsbBits(v))[0]
  {
    if v >= 0 {
      LsbBitsValue(v);
      ReverseValue(LsbBits(v));
    }
    if v > 0 {
      ReverseAt(LsbBits(v), 0);
    }
  }

  /** The unsigned extensions see only values in 0..2^w-1, whose bit lists
      have at most w entries: 8 for `UInt8`, 32 for `UInt32`. */
  lemma FixedWidthBits(v: int, w: nat)
    requires 0 <= v < Pow2(w)
    ensures BitLength(v) <= w && |LsbBits(v)| <= w && PopCount(v) <= w
  {
    BitLengthFits(v, w);
    LsbBitsValue(v);
    PopCountBits(v);
    CountTrueAtMost(LsbBits(v));
  }

  /** `Bool ^`: converts both sides to 0/1 and compares the `Int` xor with 0;
      it is exclusive or. */
  function BoolXor(lhs: bool, rhs: bool): (r: bool)
    ensures r <==> lhs != rhs
  {
    XorSelf(1); XorZero(1); XorSelf(0);
    Xor(if lhs then 1 else 0, if rhs then 1 else 0) != 0
  }
}
