/** ZXMatrixUtils.swift, `encodeVersionInformation`: the eighteen version
    bits (six bits of the version number, twelve BCH bits) written twice,
    as a 6x3 block above the bottom-left finder and a 3x6 block left of the
    top-right finder. The placement is described, as for the format bits,
    by the list of `setValue` calls it makes. */
module MatrixVersionInfo {
  import opened Bits
  import opened ByteMatrices
  import opened QRVersions
  import BitArray
  import Bch
  import FormatInformations
  import opened MatrixInfo

  /** The bit width of `VersionInfoPoly`. */
  lemma VersionPolyWidth()
    ensures BitLength(Bch.VersionInfoPoly) == 13
  {
  }

  /** `calculateBCHCode(input: versionNumber, poly: VersionInfoPoly)`. */
  function VersionBch(versionNumber: int): int
  {
    Bch.BchReduce(Bch.BchStart(versionNumber, Bch.VersionInfoPoly), Bch.VersionInfoPoly)
  }

  /** The eighteen version bits: six bits of the version number, then twelve
      BCH bits. */
  function VersionInfoBits(versionNumber: int): (r: seq<bool>)
    ensures |r| == VersionInfoMaxBitWidth
  {
    BitArray.MakeBitArray(versionNumber, 6) + BitArray.MakeBitArray(VersionBch(versionNumber), 12)
  }

  /** The version numbers of the table shift by 13 bits without leaving a
      64-bit `Int`. */
  lemma VersionShiftFits(versionNumber: int)
    requires 0 <= versionNumber <= MaxVersionNumber
    ensures Bch.ShiftFits(versionNumber, Bch.VersionInfoPoly)
  {
    VersionPolyWidth();
    Bch.ShlMonotone(versionNumber, 40, 13);
    assert Bch.Shl(40, 13) == 327680;
    FormatInformations.Pow2Of63();
  }

  /** The two writes of inner iteration p = 3 * idx + jdx: bit 17 - p to
      (column idx, row height - 11 + jdx) and to (column width - 11 + jdx,
      row idx). */
  function VersionIteration(bits: seq<bool>, width: int, height: int, p: nat): (ws: seq<Write>)
    requires |bits| == 18 && p < 18
    ensures |ws| == 2
  {
    var (idx, jdx) := LoopIndices(p);
    var bit := bits[17 - p];
    [Write(idx, height - 11 + jdx, bit), Write(width - 11 + jdx, idx, bit)]
  }

  /** The (idx, jdx) of inner iteration p of the `0..<6` by `0..<3` loops:
      p / 3 and p % 3, counted in steps of three. */
  function LoopIndices(p: nat): (r: (nat, nat))
    ensures r.1 < 3 && 3 * r.0 + r.1 == p
  {
    if p < 3 then (0, p) else var q := LoopIndices(p - 3); (q.0 + 1, q.1)
  }

  /** The writes of the first p inner iterations. */
  function VersionWrites(bits: seq<bool>, width: int, height: int, p: nat): (ws: seq<Write>)
    requires |bits| == 18 && p <= 18
    ensures |ws| == 2 * p
  {
    if p == 0 then [] else VersionWrites(bits, width, height, p - 1) + VersionIteration(bits, width, height, p - 1)
  }

  lemma VersionWritesStep(bits: seq<bool>, width: int, height: int, p: nat)
    requires |bits| == 18 && p < 18
    ensures VersionWrites(bits, width, height, p + 1) ==
      VersionWrites(bits, width, height, p) + VersionIteration(bits, width, height, p)
  {
  }

  /** Writes 2p and 2p + 1 are those of iteration p. */
  lemma {:induction false} VersionWritesAt(bits: seq<bool>, width: int, height: int, n: nat, p: nat)
    requires |bits| == 18 && p < n <= 18
    ensures VersionWrites(bits, width, height, n)[2 * p] == VersionIteration(bits, width, height, p)[0]
    ensures VersionWrites(bits, width, height, n)[2 * p + 1] == VersionIteration(bits, width, height, p)[1]
  {
    if p < n - 1 {
      VersionWritesAt(bits, width, height, n - 1, p);
    }
  }

  /** `encodeVersionInformation(version:)`: nothing for versions below 7;
      otherwise the version bits, read from the last one back, to the two
      blocks. The BCH call and the length check cannot throw (the
      polynomial is not zero and the bits number eighteen), so their error
      paths are not modelled. */
  method EncodeVersionInformation(m: ByteMatrix, version: Version)
    requires m.Valid() && version.versionNumber <= MaxVersionNumber
    requires SupportsEncoding(version) ==> m.width >= 11 && m.height >= 11
    modifies m
    ensures m.Valid()
    ensures !SupportsEncoding(version) ==> m.bytes == old(m.bytes)
    ensures SupportsEncoding(version) ==>
      m.bytes == ApplyWrites(old(m.bytes), VersionWrites(VersionInfoBits(version.versionNumber), m.width, m.height, 18))
  {
    if !SupportsEncoding(version) {
      return;
    }
    var versionInfoBits := BitArray.MakeBitArray(version.versionNumber, 6);
    VersionShiftFits(version.versionNumber);
    VersionPolyWidth();
    var bchCode := Bch.CalculateBCHCode(version.versionNumber, Bch.VersionInfoPoly);
    versionInfoBits := versionInfoBits + BitArray.MakeBitArray(bchCode.value, 12);
    assert versionInfoBits == VersionInfoBits(version.versionNumber);
    PlaceVersionBits(m, versionInfoBits);
  }

  /** The two nested placement loops, reading the bits from the last one
      back. */
  method PlaceVersionBits(m: ByteMatrix, versionInfoBits: seq<bool>)
    requires m.Valid() && m.width >= 11 && m.height >= 11 && |versionInfoBits| == 18
    modifies m
    ensures m.Valid() && m.bytes == ApplyWrites(old(m.bytes), VersionWrites(versionInfoBits, m.width, m.height, 18))
  {
    var bitIndex := |versionInfoBits| - 1;
    for idx := 0 to 6
      invariant bitIndex == 17 - 3 * idx
      invariant m.Valid() && m.bytes == ApplyWrites(old(m.bytes), VersionWrites(versionInfoBits, m.width, m.height, 3 * idx))
    {
      bitIndex := PlaceVersionBitsAt(m, old(m.bytes), versionInfoBits, idx, bitIndex);
    }
  }

  /** The inner loop, `for jdx in 0..<3`: three bits to both blocks. */
  method PlaceVersionBitsAt(m: ByteMatrix, ghost g: seq<seq<uint8>>, versionInfoBits: seq<bool>, idx: int,
                            bitIndex: int)
    returns (bitIndex': int)
    requires m.Valid() && m.width >= 11 && m.height >= 11 && |versionInfoBits| == 18
    requires 0 <= idx < 6 && bitIndex == 17 - 3 * idx
    requires m.bytes == ApplyWrites(g, VersionWrites(versionInfoBits, m.width, m.height, 3 * idx))
    modifies m
    ensures bitIndex' == 17 - 3 * (idx + 1)
    ensures m.Valid() && m.bytes == ApplyWrites(g, VersionWrites(versionInfoBits, m.width, m.height, 3 * (idx + 1)))
  {
    bitIndex' := bitIndex;
    ghost var placed := 3 * idx;
    for jdx := 0 to 3
      invariant placed == 3 * idx + jdx && bitIndex' + placed == 17
      invariant m.Valid() && m.bytes == ApplyWrites(g, VersionWrites(versionInfoBits, m.width, m.height, placed))
    {
      var bit := versionInfoBits[bitIndex'];
      bitIndex' := bitIndex' - 1;
      PlaceVersionBit(m, g, versionInfoBits, placed, idx, jdx, bit);
      placed := placed + 1;
    }
  }

  /** The body of the inner loop: bit p, read from the end, to both blocks. */
  method PlaceVersionBit(m: ByteMatrix, ghost g: seq<seq<uint8>>, bits: seq<bool>, ghost p: nat, idx: int, jdx: int,
                         bit: bool)
    requires m.Valid() && m.width >= 11 && m.height >= 11 && |bits| == 18
    requires 0 <= idx < 6 && 0 <= jdx < 3 && p == 3 * idx + jdx && bit == bits[17 - p]
    requires m.bytes == ApplyWrites(g, VersionWrites(bits, m.width, m.height, p))
    modifies m
    ensures m.Valid() && m.bytes == ApplyWrites(g, VersionWrites(bits, m.width, m.height, p + 1))
  {
    ghost var before := VersionWrites(bits, m.width, m.height, p);
    ghost var first, second := Write(idx, m.height - 11 + jdx, bit), Write(m.width - 11 + jdx, idx, bit);
    PutCell(m, bit, idx, m.height - 11 + jdx);
    PutCell(m, bit, m.width - 11 + jdx, idx);
    VersionIterationIs(bits, m.width, m.height, idx, jdx, bit);
    VersionWritesStep(bits, m.width, m.height, p);
    assert VersionWrites(bits, m.width, m.height, p + 1) == before + [first, second];
    ApplyWritesPair(g, before, first, second);
  }

  /** Iteration 3 * idx + jdx in terms of idx and jdx. */
  lemma VersionIterationIs(bits: seq<bool>, width: int, height: int, idx: nat, jdx: nat, bit: bool)
    requires |bits| == 18 && idx < 6 && jdx < 3 && bit == bits[17 - (3 * idx + jdx)]
    ensures VersionIteration(bits, width, height, 3 * idx + jdx) ==
      [Write(idx, height - 11 + jdx, bit), Write(width - 11 + jdx, idx, bit)]
  {
    var p := 3 * idx + jdx;
    assert LoopIndices(p) == (idx, jdx);
  }

  // ---------------------------------------------------------------------
  // What the version writes leave behind

  /** The first six bits are the version number, and the twelve after them
      are its check bits: the GF(2) remainder of
      `(versionNumber << 13) - 1` modulo 0x1F25. */
  lemma VersionInfoBitsFields(versionNumber: int)
    requires 1 <= versionNumber <= MaxVersionNumber
    ensures ValueMsb(VersionInfoBits(versionNumber)[..6]) == versionNumber
    ensures ValueMsb(VersionInfoBits(versionNumber)[6..]) < Pow2(12)
    ensures exists q: nat :: NatXor(Bch.BchStart(versionNumber, Bch.VersionInfoPoly),
      ValueMsb(VersionInfoBits(versionNumber)[6..])) == Bch.ClMul(q, Bch.VersionInfoPoly)
  {
    var bits := VersionInfoBits(versionNumber);
    var check := VersionBch(versionNumber);
    assert bits[..6] == BitArray.MakeBitArray(versionNumber, 6);
    assert bits[6..] == BitArray.MakeBitArray(check, 12);
    assert Pow2(6) == 64;
    BitArray.MakeBitArrayValue(versionNumber, 6);
    VersionPolyWidth();
    Bch.BchCodeIsRemainder(versionNumber, Bch.VersionInfoPoly);
    BitLengthFits(check, 12);
    BitArray.MakeBitArrayValue(check, 12);
  }

  /** On a matrix at least 17 modules wide and 11 high the 36 writes go to
      36 different cells, so both blocks end up holding the bits: bit
      17 - (3 * idx + jdx) at (column idx, row height - 11 + jdx) and,
      transposed, at (column width - 11 + jdx, row idx). */
  lemma VersionBlocksIntact(g: seq<seq<uint8>>, bits: seq<bool>, width: int, height: int, idx: nat, jdx: nat)
    requires |bits| == 18 && width >= 17 && height >= 11 && IsGrid(g, width, height)
    requires idx < 6 && jdx < 3
    ensures ApplyWrites(g, VersionWrites(bits, width, height, 18))[height - 11 + jdx][idx] ==
      BitByte(bits[17 - (3 * idx + jdx)])
    ensures ApplyWrites(g, VersionWrites(bits, width, height, 18))[idx][width - 11 + jdx] ==
      BitByte(bits[17 - (3 * idx + jdx)])
  {
    var ws := VersionWrites(bits, width, height, 18);
    var p := 3 * idx + jdx;
    assert LoopIndices(p) == (idx, jdx);
    VersionWritesAt(bits, width, height, 18, p);
    forall j | 2 * p < j < 36
      ensures !(ws[j].x == idx && ws[j].y == height - 11 + jdx)
      ensures j > 2 * p + 1 ==> !(ws[j].x == width - 11 + jdx && ws[j].y == idx)
    {
      VersionWritesAt(bits, width, height, 18, j / 2);
      assert j == 2 * (j / 2) || j == 2 * (j / 2) + 1;
    }
    LastWriteWins(g, ws, 2 * p);
    LastWriteWins(g, ws, 2 * p + 1);
  }
}
