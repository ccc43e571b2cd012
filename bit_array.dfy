/** ZXBitArray.swift: a bit array is a `[Bool]`; `makeBitArray` gives the
    low `length` bits of a value most significant first, and
    `makeByteArray` packs eight bits at a time back into bytes. */
module BitArray {
  import opened Bits

  /** `makeBitArray(value:length:)`: the value's most-significant-first bit
      list, cut to its last `length` entries or padded in front with false.
      `suffix` traps on a negative length, hence the precondition. */
  function MakeBitArray(value: int, length: int): (r: seq<bool>)
    requires length >= 0
    ensures |r| == length
  {
    var source := Reverse(LsbBits(value));
    if length < |source| then source[|source| - length..]
    else if length > |source| then Zeros(length - |source|) + source
    else source
  }

  /** Read back most significant first, the array holds the value modulo
      2^length; a value below 2^length comes back whole, behind false
      padding bits. Values <= 0 give all-false arrays. */
  lemma MakeBitArrayValue(value: int, length: nat)
    ensures value >= 0 ==> ValueMsb(MakeBitArray(value, length)) == value % Pow2(length)
    ensures 0 <= value < Pow2(length) ==>
      ValueMsb(MakeBitArray(value, length)) == value &&
      forall i :: 0 <= i < length - BitLength(value) ==> !MakeBitArray(value, length)[i]
    ensures value <= 0 ==> MakeBitArray(value, length) == Zeros(length)
  {
    if value >= 0 {
      MakeBitArrayMod(value, length);
      if value < Pow2(length) {
        DivModUnique(value, Pow2(length), 0, value);
        MakeBitArrayPadding(value, length);
      }
    }
  }

  /** A non-negative value comes back modulo 2^length. */
  lemma MakeBitArrayMod(value: int, length: nat)
    requires value >= 0
    ensures ValueMsb(MakeBitArray(value, length)) == value % Pow2(length)
  {
    var source := Reverse(LsbBits(value));
    var r := MakeBitArray(value, length);
    LsbBitsValue(value);
    ReverseValue(LsbBits(value));
    assert ValueMsb(source) == value && |source| == BitLength(value);
    if length < |source| {
      assert r == source[|source| - length..];
      ValueMsbSuffix(source, length);
    } else {
      if length > |source| {
        ValueMsbPadded(length - |source|, source);
      }
      assert ValueMsb(r) == value;
      BitLengthFits(value, length);
      DivModUnique(value, Pow2(length), 0, value);
      assert value % Pow2(length) == value;
    }
  }

  /** A value below 2^length is padded in front with false bits. */
  lemma MakeBitArrayPadding(value: int, length: nat)
    requires 0 <= value < Pow2(length)
    ensures forall i :: 0 <= i < length - BitLength(value) ==> !MakeBitArray(value, length)[i]
  {
    LsbBitsValue(value);
    BitLengthFits(value, length);
  }

  /** The bytes of a byte list, eight bits each, most significant first. */
  function BitsOfBytes(bytes: seq<int>): (r: seq<bool>)
    ensures |r| == 8 * |bytes|
  {
    if bytes == [] then [] else MakeBitArray(bytes[0], 8) + BitsOfBytes(bytes[1..])
  }

  /** The bits of two byte lists are the bits of each, in order. */
  lemma {:induction false} BitsOfBytesAppend(a: seq<int>, b: seq<int>)
    ensures BitsOfBytes(a + b) == BitsOfBytes(a) + BitsOfBytes(b)
    decreases |a|
  {
    if a != [] {
      BitsOfBytesAppend(a[1..], b);
      assert (a + b)[1..] == a[1..] + b;
    } else {
      assert a + b == b;
    }
  }

  lemma {:induction false} BitsOfBytesAt(bytes: seq<int>, k: nat)
    requires k < |bytes|
    ensures BitsOfBytes(bytes)[8 * k..8 * k + 8] == MakeBitArray(bytes[k], 8)
  {
    var b := BitsOfBytes(bytes);
    if k > 0 {
      BitsOfBytesAt(bytes[1..], k - 1);
      assert b[8 * k..8 * k + 8] == BitsOfBytes(bytes[1..])[8 * (k - 1)..8 * (k - 1) + 8];
    } else {
      assert b[..8] == MakeBitArray(bytes[0], 8);
    }
  }

  /** Round trip: packing the concatenated 8-bit arrays of bytes in 0..255
      gives back those bytes. */
  lemma ByteRoundTrip(bytes: seq<int>)
    requires forall k :: 0 <= k < |bytes| ==> 0 <= bytes[k] < 256
    ensures forall k :: 0 <= k < |bytes| ==>
      ValueMsb(BitsOfBytes(bytes)[8 * k..8 * k + 8]) == bytes[k]
  {
    forall k | 0 <= k < |bytes|
      ensures ValueMsb(BitsOfBytes(bytes)[8 * k..8 * k + 8]) == bytes[k]
    {
      BitsOfBytesAt(bytes, k);
      assert Pow2(8) == 256;
      MakeBitArrayValue(bytes[k], 8);
    }
  }

  /** `makeByteArray(offset:targetSize:)`: byte k is the eight bits from
      `max(offset, 0) + 8k`, most significant first. Reading past the end
      of the array, or a negative size, traps. */
  method MakeByteArray(bits: seq<bool>, offset: int, targetSize: int) returns (r: seq<int>)
    requires targetSize >= 0
    requires (if offset < 0 then 0 else offset) + 8 * targetSize <= |bits|
    ensures |r| == targetSize
    ensures forall k :: 0 <= k < targetSize ==>
      var s := (if offset < 0 then 0 else offset) + 8 * k;
      r[k] == ValueMsb(bits[s..s + 8]) && 0 <= r[k] < 256
  {
    r := [];
    var start := if offset < 0 then 0 else offset;
    var n := 0;
    while n < targetSize
      invariant 0 <= n <= targetSize
      invariant start == (if offset < 0 then 0 else offset) + 8 * n
      invariant |r| == n
      invariant forall k :: 0 <= k < n ==>
        var s := (if offset < 0 then 0 else offset) + 8 * k;
        r[k] == ValueMsb(bits[s..s + 8]) && 0 <= r[k] < 256
    {
      var currByte := PackByte(bits, start);
      r := r + [currByte];
      start := start + 8;
      n := n + 1;
    }
  }

  /** The inner loop of `makeByteArray`: OR the eight bits from `start`
      into a byte, the first one as the most significant. */
  method PackByte(bits: seq<bool>, start: nat) returns (currByte: int)
    requires start + 8 <= |bits|
    ensures currByte == ValueMsb(bits[start..start + 8]) && 0 <= currByte < 256
  {
    currByte := 0;
    var bitIdx := 0;
    assert bits[start..start] == [];
    while bitIdx < 8
      invariant 0 <= bitIdx <= 8 && 0 <= currByte
      invariant currByte == ValueMsb(bits[start..start + bitIdx]) * Pow2(8 - bitIdx)
    {
      ghost var seen := bits[start..start + bitIdx + 1];
      assert seen[..bitIdx] == bits[start..start + bitIdx] && seen[bitIdx] == bits[start + bitIdx];
      PackStep(seen, 8 - bitIdx, currByte);
      if bits[start + bitIdx] {
        currByte := Or(currByte, Pow2(7 - bitIdx));
      }
      bitIdx := bitIdx + 1;
    }
    ValueMsbBound(bits[start..start + 8]);
  }

  /** The body of the inner loop: OR-ing in the next bit's weight when the
      bit is set extends the value read so far by that bit. */
  lemma PackStep(s: seq<bool>, w: nat, x: nat)
    requires s != [] && w >= 1
    requires x == ValueMsb(s[..|s| - 1]) * Pow2(w)
    ensures (if s[|s| - 1] then Or(x, Pow2(w - 1)) else x) == ValueMsb(s) * Pow2(w - 1)
  {
    ShiftedByteStep(s, w);
    if s[|s| - 1] {
      OrFreshBit(x, w - 1);
    }
  }

  /** One step of the inner loop of MakeByteArray: the partial byte is a
      multiple of the next bit's weight times two, and adding that bit
      extends the value read so far. */
  lemma ShiftedByteStep(s: seq<bool>, w: nat)
    requires s != [] && w >= 1
    ensures (ValueMsb(s[..|s| - 1]) * Pow2(w)) % Pow2(w) == 0
    ensures ValueMsb(s) * Pow2(w - 1) ==
      ValueMsb(s[..|s| - 1]) * Pow2(w) + (if s[|s| - 1] then Pow2(w - 1) else 0)
  {
    var v := ValueMsb(s[..|s| - 1]);
    DivModUnique(v * Pow2(w), Pow2(w), v, 0);
    assert Pow2(w) == 2 * Pow2(w - 1);
    assert ValueMsb(s) == 2 * v + (if s[|s| - 1] then 1 else 0);
    calc {
      ValueMsb(s) * Pow2(w - 1);
      (2 * v + (if s[|s| - 1] then 1 else 0)) * Pow2(w - 1);
      v * (2 * Pow2(w - 1)) + (if s[|s| - 1] then 1 else 0) * Pow2(w - 1);
    }
  }
}
