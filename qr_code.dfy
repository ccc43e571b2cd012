/** ZXQRCode.swift: the encoder's result, filled in field by field. */
module QRCodes {
  import opened Errors
  import opened Modes
  import opened ErrorCorrectionLevels
  import opened QRVersions
  import opened ByteMatrices
  import MaskUtils

  /** `MaskPatternsCount`. */
  const MaskPatternsCount := 8

  /** `isValid(maskPattern:)`: the mask numbers `getDataMaskBit` accepts. */
  predicate IsValidMask(maskPattern: int)
    ensures IsValidMask(maskPattern) <==> forall x, y :: MaskUtils.DataMaskBit(maskPattern, x, y).Ok?
  {
    assert MaskUtils.DataMaskBit(maskPattern, 0, 0).Ok? <==> 0 <= maskPattern < 8;
    0 <= maskPattern && maskPattern < MaskPatternsCount
  }

  /** `ZXQRCode`: every field starts unset, the mask at -1. */
  class QRCode {
    var mode: Option<Mode>
    var errorCorrectionLevel: Option<ErrorCorrectionLevel>
    var version: Option<Version>
    var maskPattern: int
    var matrix: Option<ByteMatrix>

    /** `init()`. */
    constructor ()
      ensures mode == None && errorCorrectionLevel == None && version == None
      ensures maskPattern == -1 && !IsValidMask(maskPattern)
      ensures matrix == None
    {
      mode := None;
      errorCorrectionLevel := None;
      version := None;
      maskPattern := -1;
      matrix := None;
    }
  }
}
