/** ZXMatrixUtils.swift, `build`: the steps that lay out a QR Code matrix,
    in the order the source runs them, each able to stop the build with the
    error it throws. */
module MatrixBuild {
  import opened Errors
  import opened ByteMatrices
  import opened ErrorCorrectionLevels
  import opened MatrixPatterns
  import QRVersions
  import QRCodes
  import BitMatrices
  import MatrixInfo
  import MatrixVersionInfo
  import MatrixData

  /** Every entry of a strictly increasing list lies between its first and
      its last. */
  lemma {:induction false} IncreasingFromFirst(ps: seq<int>, a: int)
    requires forall i :: 0 <= i < |ps| - 1 ==> ps[i] < ps[i + 1]
    requires 0 <= a < |ps|
    ensures ps[0] <= ps[a]
  {
    if a > 0 {
      IncreasingFromFirst(ps, a - 1);
    }
  }

  lemma {:induction false} IncreasingToLast(ps: seq<int>, a: int)
    requires forall i :: 0 <= i < |ps| - 1 ==> ps[i] < ps[i + 1]
    requires 0 <= a < |ps|
    ensures ps[a] <= ps[|ps| - 1]
    decreases |ps| - a
  {
    if a < |ps| - 1 {
      IncreasingToLast(ps, a + 1);
    }
  }

  /** On the 17 + 4n module matrix of version n, every alignment pattern of
      the table lies inside the matrix. */
  lemma CentresFitDimension(versionNumber: int)
    requires 2 <= versionNumber <= QRVersions.MaxVersionNumber
    ensures CentresFit(AlignmentPositions(versionNumber).value, 17 + 4 * versionNumber, 17 + 4 * versionNumber)
  {
    var ps := AlignmentPositions(versionNumber).value;
    AlignmentPositionsShape(versionNumber);
    forall a | 0 <= a < |ps|
      ensures 6 <= ps[a] <= 17 + 4 * versionNumber - 7
    {
      IncreasingFromFirst(ps, a);
      IncreasingToLast(ps, a);
    }
  }

  /** `build(data:errorCorrectionLevel:version:maskPattern:)` on the square
      matrix of the version's dimension: clear every cell, then the finder
      patterns, the dark module, the alignment patterns, the timing
      patterns, the format information, the version information and the
      data, stopping at the first step that throws. An invalid mask stops
      the build at the format information. With a valid mask the build
      gets no further than the data step, which traps on any matrix wider
      than 7 modules, so the build never completes. */
  method Build(m: ByteMatrix, data: BitMatrices.BitMatrix, level: ErrorCorrectionLevel, version: QRVersions.Version,
               maskPattern: int)
    returns (outcome: Outcome)
    requires m.Valid() && data.Valid()
    requires 1 <= version.versionNumber <= QRVersions.MaxVersionNumber
    requires m.width == QRVersions.Dimension(version) && m.height == QRVersions.Dimension(version)
    modifies m
    ensures m.Valid()
    ensures !QRCodes.IsValidMask(maskPattern) ==> outcome == Failed(Unspecified)
    ensures outcome == Trapped || outcome == Failed(Unspecified)
  {
    m.Clear();
    outcome := EncodeFinderPatterns(m);
    if outcome != Completed {
      return;
    }
    outcome := EncodeDarkModule(m);
    if outcome != Completed {
      return;
    }
    if QRVersions.SupportsPositionAlignment(version) {
      CentresFitDimension(version.versionNumber);
    }
    outcome := EncodePositionAlignmentPatterns(m, version);
    if outcome != Completed {
      return;
    }
    EncodeTimingPatterns(m);
    outcome := MatrixInfo.EncodeFormatInformation(m, level, maskPattern);
    if outcome != Completed {
      return;
    }
    MatrixVersionInfo.EncodeVersionInformation(m, version);
    ghost var before := m.bytes;
    outcome := MatrixData.EncodeData(m, data, maskPattern);
    MatrixData.EncodeDataTraps(before, data.bits, maskPattern, m.width, m.height);
  }
}
