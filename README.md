# ZXingSwift QR Code and Codabar writers, modelled in Dafny

This project models the encoding core of ZXingSwift, a Swift port of the
ZXing barcode library:

- the arithmetic it rests on: the Galois field GF(256) of QR codes
  (`ZXGenericGF`), polynomials over it (`ZXGenericGFPoly`) and the
  Reed–Solomon encoder (`ZXReedSolomonEncoder`), the integer bit helpers
  and the bit-array conversions;
- the QR code tables: error correction levels, modes, ECI character sets,
  the forty versions with their block structure, and the format
  information table with its Hamming-tolerant decoder;
- the QR encoder (`ZXEncoder`): mode selection, the header, character
  count and payload segments (numeric, alphanumeric, byte, Kanji),
  termination and padding, error correction and interleaving by blocks;
- the matrix construction (`ZXMatrixUtils`, `ZXByteMatrix`,
  `ZXMaskUtils`): finder, separator, alignment and timing patterns, the
  dark module, format and version information with their BCH codes, the
  data placement, the data masks and the four mask penalty rules;
- the writers: `ZXQRCodeWriter` (argument checks and module scaling onto a
  `ZXBitMatrix`), `ZXCodabarWriter` with the tables of `ZXCodabarReader`,
  and the shared one-dimensional `encode`/`render` of
  `ZXOneDimensionalCodeWriter`.

Each Swift file has its own Dafny module. Pure Swift code (enum switches,
table lookups, arithmetic) becomes functions. Code that loops over local
state or mutates a buffer becomes methods with loop invariants. Each such
method is proved against a specification function, for example
`GenerateECBytes` against `ECBytes` and `PenaltyRule1` against
`LinePenalty`. Classes whose fields the source updates in place
(`ZXBitMatrix`, `ZXByteMatrix`, the field tables, the Reed–Solomon
generator cache) are Dafny classes. Swift `throws` becomes a `Result`
with the three `ZXError` cases. An out-of-range array access, which traps
in Swift, is either excluded by a precondition or modelled as an explicit
outcome where the source reaches it.

The Swift code is modelled as written. Where it departs from what its
comments, its names or ISO/IEC 18004 evidently intend, both versions are
modelled and the difference is proved; each such departure is a row of
"## Findings". The most
consequential case: as written, the QR encoder cannot complete a symbol
at levels L and M, and at levels Q and H it writes the data itself as
"error correction".

## Model

| member | source | states |
|---|---|---|
| GenericGF.GenericGF.constructor | ZXingSwift/Common/ReedSolomon/ZXGenericGF.swift:53-79 | The exponent table holds 2^i reduced by the primitive; the logarithm table is the table its loop builds, which inverts the exponents whenever they are distinct (`LogTableInverts`). |
| GenericGF.LogTableInverts | ZXingSwift/Common/ReedSolomon/ZXGenericGF.swift:68-77 | Once the first n exponents are distinct, the logarithm loop maps each of them back to its index. |
| GenericGF.GenericGF.Zero | ZXingSwift/Common/ReedSolomon/ZXGenericGF.swift:81-87 | `Zero` is the polynomial with the single coefficient 0. |
| GenericGF.GenericGF.One | ZXingSwift/Common/ReedSolomon/ZXGenericGF.swift:89-95 | `One` is the polynomial with the single coefficient 1. |
| GenericGF.GenericGF.BuildMonomial | ZXingSwift/Common/ReedSolomon/ZXGenericGF.swift:98-112 | A negative degree is IllegalArgument; coefficient 0 gives Zero; otherwise the coefficient followed by `degree` zeros. |
| GenericGF.Add | ZXingSwift/Common/ReedSolomon/ZXGenericGF.swift:116-118 | Field addition is exclusive or: it is commutative, and adding the same value twice gives the value back. |
| GenericGF.Subtract | ZXingSwift/Common/ReedSolomon/ZXGenericGF.swift:122-124 | Subtraction is the same operation as addition. |
| GenericGF.GenericGF.Exp | ZXingSwift/Common/ReedSolomon/ZXGenericGF.swift:127-129 | `exp(0)` is 1, and every result is an element of the field. |
| GenericGF.GenericGF.Log | ZXingSwift/Common/ReedSolomon/ZXGenericGF.swift:132-139 | The logarithm is IllegalArgument at 0 and an exponent below size - 1 elsewhere. |
| GenericGF.GenericGF.MultInverse | ZXingSwift/Common/ReedSolomon/ZXGenericGF.swift:142-150 | IllegalArgument exactly at 0, an element of the field elsewhere; `MultInverseCorrect` proves it is the inverse. |
| GenericGF.GenericGF.Multiply | ZXingSwift/Common/ReedSolomon/ZXGenericGF.swift:153-160 | The product is 0 when a factor is 0, and is always an element of the field. |
| GenericGF.ExpLog | ZXingSwift/Common/ReedSolomon/ZXGenericGF.swift:127-139 | In a proper field `exp` and `log` are inverse bijections between [0, size - 1) and the nonzero elements. |
| GenericGF.MultiplyExp | ZXingSwift/Common/ReedSolomon/ZXGenericGF.swift:153-160 | Multiplying two powers of 2 adds their exponents modulo size - 1. |
| GenericGF.MultiplyUnit | ZXingSwift/Common/ReedSolomon/ZXGenericGF.swift:153-160 | 1 is the identity, multiplication commutes, and nonzero elements have a nonzero product. |
| GenericGF.MultiplyAssoc | ZXingSwift/Common/ReedSolomon/ZXGenericGF.swift:153-160 | Multiplication is associative. |
| GenericGF.MultInverseCorrect | ZXingSwift/Common/ReedSolomon/ZXGenericGF.swift:142-160 | `multInverse(v)` times v is 1, on either side. |
| QRField256.MakeQRField | ZXingSwift/Common/ReedSolomon/ZXGenericGF.swift:181 | `QRCode_Field256` is built from primitive 0x011D, size 256 and base 0. |
| QRField256.QROrder | ZXingSwift/Common/ReedSolomon/ZXGenericGF.swift:53-79 | In the QR field 2 has order exactly 255. |
| QRField256.QRExpDistinct | ZXingSwift/Common/ReedSolomon/ZXGenericGF.swift:53-79 | The first 255 powers of 2 are distinct. |
| QRField256.QRTableOnto | ZXingSwift/Common/ReedSolomon/ZXGenericGF.swift:53-79 | Every nonzero byte is one of the first 255 powers of 2. |
| QRField256.QRFieldIsProper | ZXingSwift/Common/ReedSolomon/ZXGenericGF.swift:53-79 | The QR field's tables form a proper field: bijective exponent and logarithm tables. |
| QRField256.QRFieldDistributive | ZXingSwift/Common/ReedSolomon/ZXGenericGF.swift:153-160 | The QR field's multiplication distributes over exclusive or. |
| GenericGF.MakePoly | ZXingSwift/Common/ReedSolomon/ZXGenericGFPoly.swift:46-72 | The initialiser keeps the field; `MakePolyCases` and `MakePolySlicesByValue` state what it does to the coefficients. |
| GenericGF.StripLeadingZeros | ZXingSwift/Common/ReedSolomon/ZXGenericGFPoly.swift:46-72 | The intended normalisation drops leading zeros, keeps [0] for the zero polynomial, and leaves a nonzero head. |
| GenericGF.MakePolyCases | ZXingSwift/Common/ReedSolomon/ZXGenericGFPoly.swift:46-72 | For an empty list, an all-zero list, a single coefficient or a nonzero head, the initialiser agrees with the intended normalisation. |
| GenericGF.MakePolySlicesByValue | ZXingSwift/Common/ReedSolomon/ZXGenericGFPoly.swift:58-66 | With a zero head the initialiser slices by value: [0, 2, 7] becomes [7] where stripping gives [2, 7], and [0, 4, 0, 0] becomes the empty list. |
| GenericGFPoly.CoefficientEnds | ZXingSwift/Common/ReedSolomon/ZXGenericGFPoly.swift:75-88 | `coefficient(degree:)` at the top degree is the head, and at degree 0 the last entry. |
| GenericGFPoly.Evaluate | ZXingSwift/Common/ReedSolomon/ZXGenericGFPoly.swift:91-119 | At 0 the constant term, at 1 the exclusive-or sum of the coefficients (0 for an empty list), and Horner's rule elsewhere. |
| GenericGFPoly.HornerShortcuts | ZXingSwift/Common/ReedSolomon/ZXGenericGFPoly.swift:91-119 | In a proper field both shortcuts of `evaluate` agree with Horner's rule. |
| GenericGFPoly.SumCoefficientsByDegree | ZXingSwift/Common/ReedSolomon/ZXGenericGFPoly.swift:121-152 | Before normalising, the coefficient of x^d in the sum is the exclusive or of the two coefficients of x^d. |
| GenericGFPoly.AddPoly | ZXingSwift/Common/ReedSolomon/ZXGenericGFPoly.swift:121-152 | A field mismatch is IllegalArgument; a zero operand gives the other; otherwise the normalised coefficient-wise sum. |
| GenericGFPoly.SubtractPoly | ZXingSwift/Common/ReedSolomon/ZXGenericGFPoly.swift:154-156 | Subtraction gives the same result as addition. |
| GenericGFPoly.AddIdentity | ZXingSwift/Common/ReedSolomon/ZXGenericGFPoly.swift:121-152 | Zero is a left identity; p + Zero is p, or Zero when p is zero-headed; a field mismatch is IllegalArgument. |
| GenericGFPoly.AddSelfIsZero | ZXingSwift/Common/ReedSolomon/ZXGenericGFPoly.swift:121-152 | A nonzero polynomial added to itself gives [0]. |
| GenericGFPoly.AddCommutes | ZXingSwift/Common/ReedSolomon/ZXGenericGFPoly.swift:121-152 | `add` commutes, except when both operands are zero-headed. |
| GenericGFPoly.ProductRowsHead | ZXingSwift/Common/ReedSolomon/ZXGenericGFPoly.swift:158-184 | The leading coefficient of the product list is the product of the leading coefficients. |
| GenericGFPoly.MultiplyPoly | ZXingSwift/Common/ReedSolomon/ZXGenericGFPoly.swift:158-184 | A field mismatch is IllegalArgument; a zero operand gives Zero; otherwise product a[i] * b[j] is added into entry i + j, then normalised. |
| GenericGFPoly.AddRow | ZXingSwift/Common/ReedSolomon/ZXGenericGFPoly.swift:174-181 | The inner loop adds coeffA * b[k] into entry idxA + k for every k and changes no other entry. |
| GenericGFPoly.ProductShape | ZXingSwift/Common/ReedSolomon/ZXGenericGFPoly.swift:158-184 | In a proper field the product of nonzero polynomials has length \|a\| + \|b\| - 1, the product of the heads first and of the constant terms last. |
| GenericGFPoly.MultiplyByOne | ZXingSwift/Common/ReedSolomon/ZXGenericGFPoly.swift:158-184 | One is the identity of `multiply(other:)` on nonzero polynomials. |
| GenericGFPoly.MultiplyScalar | ZXingSwift/Common/ReedSolomon/ZXGenericGFPoly.swift:186-201 | The field is kept; `ScalarShortcuts` and `ScalarInverse` state what scaling does to the coefficients. |
| GenericGFPoly.ScalarShortcuts | ZXingSwift/Common/ReedSolomon/ZXGenericGFPoly.swift:186-201 | In a proper field both shortcuts agree with the general scaling branch. |
| GenericGFPoly.ScalarInverse | ZXingSwift/Common/ReedSolomon/ZXGenericGFPoly.swift:186-201 | Scaling by v and then by v's inverse gives the polynomial back. |
| GenericGFPoly.MultiplyByMonomial | ZXingSwift/Common/ReedSolomon/ZXGenericGFPoly.swift:203-218 | IllegalArgument exactly for a negative degree, and the field is kept; `MonomialDoesNotShift` states that the degree is ignored. |
| GenericGFPoly.MonomialDoesNotShift | ZXingSwift/Common/ReedSolomon/ZXGenericGFPoly.swift:203-218 | The result keeps the length of p, whereas a product with coefficient * x^degree is `degree` entries longer. |
| GenericGFPoly.Divide | ZXingSwift/Common/ReedSolomon/ZXGenericGFPoly.swift:220-257 | A field mismatch or a zero divisor is IllegalArgument; otherwise the loop subtracts scaled copies of the divisor until the remainder is zero or shorter than the divisor. |
| GenericGFPoly.ReducedShape | ZXingSwift/Common/ReedSolomon/ZXGenericGFPoly.swift:243-254 | One round cancels the leading term: dividend = quotient term × divisor + the reduced list. |
| GenericGFPoly.DivideRemainder | ZXingSwift/Common/ReedSolomon/ZXGenericGFPoly.swift:220-257 | On return the remainder is zero or of lower degree than the divisor. |
| GenericGFPoly.MonicProduct | ZXingSwift/Common/ReedSolomon/ZXGenericGFPoly.swift:158-184 | The product of two monic polynomials is monic, with length \|a\| + \|b\| - 1. |
| PolyAlgebra.AddTwiceAsWritten | ZXingSwift/Common/ReedSolomon/ZXGenericGFPoly.swift:46-72 | As written, adding q twice need not give p back: [1, 0, 5] + [1, 0, 4] + [1, 0, 4] is not [1, 0, 5]. |
| PolyAlgebra.AddNormalised | ZXingSwift/Common/ReedSolomon/ZXGenericGFPoly.swift:121-152 | The intended sum has the exclusive or of the operands' coefficients at every degree and is in normal form. |
| PolyAlgebra.AddNormalisedTwice | ZXingSwift/Common/ReedSolomon/ZXGenericGFPoly.swift:121-152 | With the intended normalisation, (p + q) + q == p for p in normal form. |
| PolyAlgebra.AddAgreesWithNormalised | ZXingSwift/Common/ReedSolomon/ZXGenericGFPoly.swift:121-152 | When the sum keeps a nonzero head, `add` as written equals the intended sum. |
| PolyAlgebra.HornerSum | ZXingSwift/Common/ReedSolomon/ZXGenericGFPoly.swift:91-119 | Evaluation is additive: the value of a termwise sum is the sum of the values. |
| PolyAlgebra.HornerProduct | ZXingSwift/Common/ReedSolomon/ZXGenericGFPoly.swift:158-184 | The product list evaluates to the product of the operands' values. |
| PolyAlgebra.MultiplyEvaluates | ZXingSwift/Common/ReedSolomon/ZXGenericGFPoly.swift:158-184 | For nonzero polynomials over a distributive field, `(p.multiply(q)).evaluate(x) == p.evaluate(x) * q.evaluate(x)`. |
| PolyAlgebra.QRMultiplyEvaluates | ZXingSwift/Common/ReedSolomon/ZXGenericGFPoly.swift:158-184 | The same evaluation law over `QRCode_Field256`, with nothing assumed about the field. |
| PolyAlgebra.MultiplyZeroHeadedAsWritten | ZXingSwift/Common/ReedSolomon/ZXGenericGFPoly.swift:163-167 | As written the law fails for the zero-headed [0, 1]: `multiply` takes it for zero, so [0, 1] times One is Zero. |
| ReedSolomon.LinearFactor | ZXingSwift/Common/ReedSolomon/ZXReedSolomonEncoder.swift:85-93 | The factor the cache multiplies in is the normalised [1, exp(d - 1 + base)], a nonzero monic polynomial of degree 1. |
| ReedSolomon.Generator | ZXingSwift/Common/ReedSolomon/ZXReedSolomonEncoder.swift:76-97 | The generator of degree d is monic, of length d + 1, over the field; `GeneratorStep` shows it is built one linear factor at a time. |
| ReedSolomon.GeneratorStep | ZXingSwift/Common/ReedSolomon/ZXReedSolomonEncoder.swift:85-93 | Each generator is the previous one times its linear factor, and that product is defined. |
| ReedSolomon.GeneratorConstantTerm | ZXingSwift/Common/ReedSolomon/ZXReedSolomonEncoder.swift:76-97 | The constant term of the generator is the product of its roots. |
| ReedSolomon.ReedSolomonEncoder.constructor | ZXingSwift/Common/ReedSolomon/ZXReedSolomonEncoder.swift:32-39 | The cache starts with the generator of degree 0, One. |
| ReedSolomon.ReedSolomonEncoder.BuildGenerator | ZXingSwift/Common/ReedSolomon/ZXReedSolomonEncoder.swift:76-97 | The cache is extended with generators up to `degree` and entry `degree` is returned; earlier entries are kept. |
| ReedSolomon.ReedSolomonEncoder.EcCodewordsAreElements | ZXingSwift/Common/ReedSolomon/ZXReedSolomonEncoder.swift:59-73 | The codewords written after the data are field elements. |
| ReedSolomon.ReedSolomonEncoder.WriteCodewords | ZXingSwift/Common/ReedSolomon/ZXReedSolomonEncoder.swift:62-73 | The two writing loops leave the data in front untouched and put the remainder, right-aligned and zero-padded, in the last `ecBytes` slots. |
| ReedSolomon.ReedSolomonEncoder.Encode | ZXingSwift/Common/ReedSolomon/ZXReedSolomonEncoder.swift:41-74 | A zero EC count or no data in front is IllegalArgument; otherwise the data is kept and the EC slots hold the remainder that `divide` leaves. |
| ReedSolomon.ReedSolomonEncoder.ShortDataIsRemainder | ZXingSwift/Common/ReedSolomon/ZXReedSolomonEncoder.swift:41-74 | As written, data no longer than the EC count with a nonzero head is its own remainder: the EC codewords are the data, zero-padded in front. |
| ReedSolomon.ReedSolomonEncoder.LongDataDiverges | ZXingSwift/Common/ReedSolomon/ZXReedSolomonEncoder.swift:41-74 | As written, data with a nonzero head and more than ecBytes + 1 entries makes the division loop run forever. |
| RSRemainder.IntendedECCodewords | ZXingSwift/Common/ReedSolomon/ZXReedSolomonEncoder.swift:41-74 | `ecBytes` field elements; `CodewordVanishes` states that they complete a codeword. |
| RSRemainder.GeneratorRoot | ZXingSwift/Common/ReedSolomon/ZXReedSolomonEncoder.swift:76-97 | The generator of degree d vanishes at each of its d roots exp(i + base). |
| RSRemainder.ReduceKeepsValue | ZXingSwift/Common/ReedSolomon/ZXReedSolomonEncoder.swift:41-74 | The remainder has the same value as the dividend at every root of the divisor. |
| RSRemainder.CodewordVanishes | ZXingSwift/Common/ReedSolomon/ZXReedSolomonEncoder.swift:41-74 | The data followed by the intended EC codewords vanishes at every root of the generator, so the generator divides it. |
| RSRemainder.QRCodewordVanishes | ZXingSwift/Common/ReedSolomon/ZXReedSolomonEncoder.swift:41-74 | The same over `QRCode_Field256`, with distributivity proved rather than assumed. |
| RSRemainder.ShortBlockAsWritten | ZXingSwift/Common/ReedSolomon/ZXReedSolomonEncoder.swift:41-74 | As written, the byte 1 with two EC bytes gets [0, 1], and 1, 0, 1 is not a codeword of the QR field. |
| IntegerUtils.NonzeroBitCount | ZXingSwift/Core/IntegerUtils.swift:24-38 | The number of set bits counted by its loop, at most the bit width, and at least 1 for a positive value. |
| IntegerUtils.BitWidth | ZXingSwift/Core/IntegerUtils.swift:40-52 | For a positive value, r is the bit count with 2^(r-1) <= v < 2^r; 0 for values <= 0. |
| IntegerUtils.ToBitArray | ZXingSwift/Core/IntegerUtils.swift:54-68 | The significant bits of the value, least significant first, or most significant first when `msbFirst` is set. |
| IntegerUtils.FixedWidthBits | ZXingSwift/Core/IntegerUtils.swift:104-118 | The `UInt8` and `UInt32` versions give at most 8 and 32 bits. |
| IntegerUtils.BoolXor | ZXingSwift/Core/IntegerUtils.swift:173-175 | `Bool ^` is exclusive or. |
| BitArray.MakeBitArray | ZXingSwift/Common/ZXBitArray.swift:14-28 | The array has exactly `length` entries. |
| BitArray.MakeBitArrayValue | ZXingSwift/Common/ZXBitArray.swift:14-28 | Read back most significant first, the array holds the value modulo 2^length; a value below 2^length comes back whole. |
| BitArray.MakeBitArrayPadding | ZXingSwift/Common/ZXBitArray.swift:14-28 | A value below 2^length is padded in front with false bits. |
| BitArray.MakeByteArray | ZXingSwift/Common/ZXBitArray.swift:33-53 | Byte k is the eight bits from `max(offset, 0) + 8k`, most significant first. |
| BitArray.PackByte | ZXingSwift/Common/ZXBitArray.swift:38-47 | The inner loop packs eight bits into the byte they spell, most significant first. |
| BitArray.ByteRoundTrip | ZXingSwift/Common/ZXBitArray.swift:14-53 | Packing the 8-bit arrays of bytes in 0..255 gives the bytes back. |
| ErrorCorrectionLevels.Bits | ZXingSwift/QRCode/Decoder/ZXErrorCorrectionLevel.swift:29-51 | Every level's raw bits fit in two bits; `LookupBits` and `BitsInjective` show they identify the level. |
| ErrorCorrectionLevels.Ordinal | ZXingSwift/QRCode/Decoder/ZXErrorCorrectionLevel.swift:42-55 | The ordinal is the position in `values` (L, M, Q, H), never -1. |
| ErrorCorrectionLevels.Lookup | ZXingSwift/QRCode/Decoder/ZXErrorCorrectionLevel.swift:70-72 | `lookup` finds a level exactly for 0..3, and the level found has those raw bits. |
| ErrorCorrectionLevels.LookupBits | ZXingSwift/QRCode/Decoder/ZXErrorCorrectionLevel.swift:70-72 | Looking up a level's bits gives the level back. |
| ErrorCorrectionLevels.BitsInjective | ZXingSwift/QRCode/Decoder/ZXErrorCorrectionLevel.swift:29-55 | Distinct levels have distinct bits and distinct ordinals. |
| Modes.Bits | ZXingSwift/QRCode/Decoder/ZXMode.swift:18-41 | Every mode's indicator fits in four bits. |
| Modes.CharacterCountBits | ZXingSwift/QRCode/Decoder/ZXMode.swift:62-99 | The count width is the table entry for the tier of the version number. |
| Modes.CharacterCountMonotone | ZXingSwift/QRCode/Decoder/ZXMode.swift:62-99 | The count width never shrinks as the version grows, and is nonzero exactly for the data modes. |
| Modes.SupportsContent | ZXingSwift/QRCode/Decoder/ZXMode.swift:113-155 | Numeric takes only digits, Alphanumeric only its 45 characters, Byte everything, Kanji what converts to Shift-JIS, other modes nothing. |
| Modes.NumericIsAlphanumeric | ZXingSwift/QRCode/Decoder/ZXMode.swift:113-155 | Numeric content is alphanumeric content, and both accept the empty string. |
| Modes.Lookup | ZXingSwift/QRCode/Decoder/ZXMode.swift:161-163 | `lookup` finds a mode exactly for the assigned indicators 0-5, 7, 8, 9 and 13, and the mode found has those bits. |
| Modes.LookupBits | ZXingSwift/QRCode/Decoder/ZXMode.swift:161-163 | Looking up a mode's bits gives the mode back, so the indicators are distinct. |
| CharacterSetEci.LookupIds | ZXingSwift/Common/ZXCharacterSetECI.swift:136-170 | Every character set has at least one assignment number. |
| CharacterSetEci.Value | ZXingSwift/Common/ZXCharacterSetECI.swift:132-134 | `value` is the first lookup id, never nil. |
| CharacterSetEci.MatchesOwner | ZXingSwift/Common/ZXCharacterSetECI.swift:208-210 | A character set claims exactly its own numbers, so no number is claimed twice. |
| CharacterSetEci.ValuesOnce | ZXingSwift/Common/ZXCharacterSetECI.swift:49-81 | `values` lists all 27 cases, each exactly once. |
| CharacterSetEci.Lookup | ZXingSwift/Common/ZXCharacterSetECI.swift:234-243 | Ids outside 0..899 are InvalidFormat; otherwise the first character set that claims the id, if any. |
| CharacterSetEci.LookupIsOwner | ZXingSwift/Common/ZXCharacterSetECI.swift:234-243 | The character set found is the one that claims the id; none is found when no case claims it. |
| CharacterSetEci.LookupValue | ZXingSwift/Common/ZXCharacterSetECI.swift:132-243 | Every character set is found again from its value, which lies in 0..127 and so fits the 8-bit ECI field. |
| CharacterSetEci.UnclaimedIds | ZXingSwift/Common/ZXCharacterSetECI.swift:234-243 | Unclaimed numbers in range, such as 14 and 19, give no character set. |
| QRVersions.CountBlocks | ZXingSwift/QRCode/Decoder/ZXVersion.swift:314-318 | The `forEach` loop returns the total number of blocks of a level. |
| QRVersions.CountTotalCodewords | ZXingSwift/QRCode/Decoder/ZXVersion.swift:28-50 | The loop of `init` sums, for the first level, the data bytes plus `ecCodewordsPerBlock` per block. |
| QRVersions.CodewordSum | ZXingSwift/QRCode/Decoder/ZXVersion.swift:28-50 | The codewords of a level are its data bytes plus `ecCodewordsPerBlock` per block. |
| QRVersions.Versions | ZXingSwift/QRCode/Decoder/ZXVersion.swift:361-602 | The table has 40 rows. |
| QRVersions.TableWellFormed | ZXingSwift/QRCode/Decoder/ZXVersion.swift:361-602 | Row n is version n, well formed; every level has blocks and gives the same `totalCodewords`. |
| QRVersions.LookupVersion | ZXingSwift/QRCode/Decoder/ZXVersion.swift:89-96 | Numbers outside 1..40 are IllegalArgument; otherwise the row with that number. |
| QRVersions.GetProvisionalVersion | ZXingSwift/QRCode/Decoder/ZXVersion.swift:73-87 | A dimension not ≡ 1 mod 4 is InvalidFormat; otherwise the version (dimension - 17) / 4, with Swift's truncating division. |
| QRVersions.ProvisionalVersionOfDimension | ZXingSwift/QRCode/Decoder/ZXVersion.swift:59-87 | Every version is found again from its dimension 17 + 4 · number. |
| QRVersions.MaxDataIsDataSum | ZXingSwift/QRCode/Decoder/ZXVersion.swift:178-185 | In every row the data capacity is the sum of the data blocks: positive, and its bits are a whole number of bytes. |
| QRVersions.FirstSupportedIndex | ZXingSwift/QRCode/Decoder/ZXVersion.swift:188-212 | The index of the first row that supports the content, or -1 when none does. |
| QRVersions.SupportedVersionIsLowest | ZXingSwift/QRCode/Decoder/ZXVersion.swift:202-212 | The search yields the lowest-numbered version after the requested one (from version 1 without one) that holds the content, or nothing when no later version does. |
| QRVersions.LookupSkipsRequestedAsWritten | ZXingSwift/QRCode/Decoder/ZXVersion.swift:195-212 | For a requested version that holds the content, a search from that version returns it, while the search as written returns only a later version or nothing. |
| QRVersions.IntendedLookupSupportedVersion | ZXingSwift/QRCode/Decoder/ZXVersion.swift:195-212 | The search its doc comment describes, starting at the requested version itself (version 1 without one). |
| QRVersions.IntendedSupportedVersionIsLowest | ZXingSwift/QRCode/Decoder/ZXVersion.swift:195-212 | That search yields the lowest-numbered version from the requested one on that holds the content, a well-formed row of the table, or nothing when none from there does. |
| QRVersions.IntendedSearchAfterRequested | ZXingSwift/QRCode/Decoder/ZXVersion.swift:206-208 | When the requested version does not hold the content, the search from it and the search as written give the same result. |
| QRVersions.GetErrorCorrectionCapacity | ZXingSwift/QRCode/Decoder/ZXVersion.swift:216-267 | IllegalArgument exactly for a block index outside the level's blocks; `CapacityOfBlock` states the capacities. |
| QRVersions.CapacityOfBlock | ZXingSwift/QRCode/Decoder/ZXVersion.swift:216-267 | In every row the source's checks pass: each block gets `ecCodewordsPerBlock` EC bytes, and the first blocks hold one data byte fewer than the rest. |
| QRVersions.DataCapacitiesSum | ZXingSwift/QRCode/Decoder/ZXVersion.swift:178-267 | Over all blocks the data capacities add up to `maxDataBytesSupported`. |
| QRVersions.VersionDecodeTableShape | ZXingSwift/QRCode/Decoder/ZXVersion.swift:322-357 | Row i of the version table holds value i; its words are distinct and fit in 18 bits. |
| QRVersions.NearestVersionEntry | ZXingSwift/QRCode/Decoder/ZXVersion.swift:98-133 | The search stops at the first exact word, otherwise returns the first nearest word when it is within the tolerance. |
| QRVersions.DecodeVersion | ZXingSwift/QRCode/Decoder/ZXVersion.swift:98-133 | `decode(versionInfo:)` gives version `value + 7` of the entry the search picks, or nothing. |
| QRVersions.DecodeVersionExact | ZXingSwift/QRCode/Decoder/ZXVersion.swift:98-133 | The version word of every version from 7 on decodes to that version. |
| QRVersions.DecodeVersionNearest | ZXingSwift/QRCode/Decoder/ZXVersion.swift:98-133 | A non-table word decodes to the version of the first nearest table word when that is within 3 bits, and to nothing otherwise. |
| FormatInformations.TableShape | ZXingSwift/QRCode/Decoder/ZXFormatInformation.swift:121-154 | Row i of the format table holds the 5-bit value i, and the code words are pairwise distinct. |
| FormatInformations.ParseFormat | ZXingSwift/QRCode/Decoder/ZXFormatInformation.swift:24-35 | Bits 4..3 give the level through `lookup` and bits 2..0 the data mask. |
| FormatInformations.ParseFormatInverse | ZXingSwift/QRCode/Decoder/ZXFormatInformation.swift:24-35 | `(bits << 3) \| mask` parses back to the same level and mask. |
| FormatInformations.DifferentBitCount | ZXingSwift/QRCode/Decoder/ZXFormatInformation.swift:64-66 | The count is at most the bit length of a ^ b, and 0 for equal values. |
| FormatInformations.DifferentBitCountMetric | ZXingSwift/QRCode/Decoder/ZXFormatInformation.swift:64-66 | The count is symmetric, and is 0 between non-negative values exactly when they are equal. |
| FormatInformations.DifferentBitCountTriangle | ZXingSwift/QRCode/Decoder/ZXFormatInformation.swift:64-66 | Between non-negative values the distance obeys the triangle inequality. |
| FormatInformations.BestIsFirstMinimum | ZXingSwift/QRCode/Decoder/ZXFormatInformation.swift:69-118 | The search keeps the first entry of least weight, and that weight. |
| FormatInformations.NearestEntry | ZXingSwift/QRCode/Decoder/ZXFormatInformation.swift:69-118 | Without an exact match, the search accepts exactly when the least weight is within the tolerance, and yields the first entry of least weight. |
| FormatInformations.DecodeTable | ZXingSwift/QRCode/Decoder/ZXFormatInformation.swift:69-118 | The loop returns the first exact match, otherwise the best match within the tolerance, or nothing. |
| FormatInformations.DecodeFormat | ZXingSwift/QRCode/Decoder/ZXFormatInformation.swift:69-118 | `decode(formatInfoA:formatInfoB:applyMask:)` is the table search on both inputs, masked when asked. |
| FormatInformations.FromFormatInfo | ZXingSwift/QRCode/Decoder/ZXFormatInformation.swift:37-47 | The initialiser tries the inputs as they are first, then with the mask removed. |
| FormatInformations.DecodeFormatExact | ZXingSwift/QRCode/Decoder/ZXFormatInformation.swift:37-154 | An uncorrupted table word decodes to the level and mask it encodes, masked or not. |
| FormatDistances.TableDistance | ZXingSwift/QRCode/Decoder/ZXFormatInformation.swift:121-154 | Any two words of the format table differ in at least 7 bits, and every word is a 15-bit value. |
| FormatDistances.OthersBeyondTolerance | ZXingSwift/QRCode/Decoder/ZXFormatInformation.swift:20-118 | A read within the tolerance of one word is beyond the tolerance of every other word. |
| FormatDistances.DecodeWithinTolerance | ZXingSwift/QRCode/Decoder/ZXFormatInformation.swift:20-154 | A format word read with at most 3 flipped bits decodes to the level and mask of the word it came from. |
| EncoderSegments.SelectedMode | ZXingSwift/QRCode/Encoder/ZXEncoder.swift:149-170 | The mode is the first of Kanji (Shift-JIS only), Numeric and Alphanumeric that supports the text, and Byte otherwise; it always supports the text. |
| EncoderSegments.CreateHeaderSegment | ZXingSwift/QRCode/Encoder/ZXEncoder.swift:173-193 | The ECI indicator and 8-bit value come first for Byte mode with a character set other than ISO-8859-1; the header ends with the four mode bits, and both read back. |
| EncoderSegments.CreateCharacterCountSegment | ZXingSwift/QRCode/Encoder/ZXEncoder.swift:195-207 | A failed count is passed on; a count wider than the field is InvalidFormat; otherwise the field has the mode's width and reads back to the count. |
| EncoderSegments.NumericBits | ZXingSwift/QRCode/Encoder/ZXEncoder.swift:350-403 | Three digits take 10 bits, a final two take 7, and a final one takes 4. |
| EncoderSegments.CreateNumericPayload | ZXingSwift/QRCode/Encoder/ZXEncoder.swift:350-403 | The loop appends the numeric bits of the text. |
| EncoderSegments.NumericRoundTrip | ZXingSwift/QRCode/Encoder/ZXEncoder.swift:350-403 | The digits of an all-digit text come back from its numeric payload. |
| EncoderSegments.AlphanumericCode | ZXingSwift/QRCode/Encoder/ZXEncoder.swift:571-600 | Digits are 0..9, letters 10..35, and space $ % * + - . / : are 36..44; any other character has no code. |
| EncoderSegments.AlphanumericTable | ZXingSwift/QRCode/Encoder/ZXEncoder.swift:571-600 | The table is a bijection between the 45 characters and the codes 0..44. |
| EncoderSegments.AlphanumericBitsRejects | ZXingSwift/QRCode/Encoder/ZXEncoder.swift:301-348 | The payload is an error exactly when some character is outside the 45-character set. |
| EncoderSegments.CreateAlphanumericPayload | ZXingSwift/QRCode/Encoder/ZXEncoder.swift:301-348 | Pairs take 11 bits as 45 c1 + c2, a final single character 6 bits, and an uncoded character is IllegalArgument. |
| EncoderSegments.AlphanumericRoundTrip | ZXingSwift/QRCode/Encoder/ZXEncoder.swift:301-348 | An alphanumeric text comes back from its payload. |
| EncoderSegments.KanjiRawCodeIsLowerByte | ZXingSwift/QRCode/Encoder/ZXEncoder.swift:432 | As written the raw code is the lower byte alone, which lies in neither Kanji range. |
| EncoderSegments.KanjiCode | ZXingSwift/QRCode/Encoder/ZXEncoder.swift:434-448 | A raw code in either Shift-JIS range maps to a 13-bit value; any other code has none. |
| EncoderSegments.CreateKanjiPayload | ZXingSwift/QRCode/Encoder/ZXEncoder.swift:405-459 | As written, an unconvertible text is IllegalArgument, the empty text gives no bits, and every other text is IllegalArgument. |
| EncoderSegments.IntendedKanjiPayload | ZXingSwift/QRCode/Encoder/ZXEncoder.swift:405-459 | With a 16-bit shift the loop gives 13 bits per byte pair, and IllegalArgument at the first pair outside both ranges. |
| EncoderSegments.KanjiRoundTrip | ZXingSwift/QRCode/Encoder/ZXEncoder.swift:405-459 | A text of Kanji byte pairs comes back from its intended payload. |
| EncoderSegments.KanjiShiftAsWritten | ZXingSwift/QRCode/Encoder/ZXEncoder.swift:432 | The pair 0x81 0x40 is rejected as written, while the intended shift gives the value 0. |
| EncoderSegments.CreateGenericPayload | ZXingSwift/QRCode/Encoder/ZXEncoder.swift:274-299 | A failed conversion is IllegalArgument; otherwise eight bits per converted byte, most significant first. |
| EncoderSegments.CreateDataPayload | ZXingSwift/QRCode/Encoder/ZXEncoder.swift:255-272 | The payload builder of the selected mode; other modes are IllegalArgument. |
| EncoderSegments.PadCodeword | ZXingSwift/QRCode/Encoder/ZXEncoder.swift:31-34 | The pad codeword is 0xEC at even byte indices and 0x11 at odd ones. |
| EncoderSegments.TerminateCode | ZXingSwift/QRCode/Encoder/ZXEncoder.swift:211-252 | A stream past the capacity is InvalidFormat; otherwise the terminated stream: up to four terminator zeros, zeros to a byte boundary, then pad codewords up to exactly the capacity. |
| EncoderSegments.AppendPadCodewords | ZXingSwift/QRCode/Encoder/ZXEncoder.swift:242-246 | The pad loop appends the pad codeword of each byte index up to the capacity. |
| EncoderSegments.TerminatedFill | ZXingSwift/QRCode/Encoder/ZXEncoder.swift:211-252 | The result starts with the data, followed by zeros up to the first pad byte. |
| EncoderSegments.TerminatedPad | ZXingSwift/QRCode/Encoder/ZXEncoder.swift:211-252 | Every byte past the aligned data is the pad codeword of its index. |
| EncoderSegments.FirstPadAsWritten | ZXingSwift/QRCode/Encoder/ZXEncoder.swift:211-246 | An 18-bit stream gets 0x11 as its first pad byte (byte 3) as written, and 0xEC in the intended stream. |
| EncoderSegments.PadFromOddDiffers | ZXingSwift/QRCode/Encoder/ZXEncoder.swift:236-246 | When the pad run starts at an odd byte index below the capacity, the stream as written differs from the intended one. |
| EncoderSegments.IntendedTerminated | ZXingSwift/QRCode/Encoder/ZXEncoder.swift:211-252 | The terminated stream with the pad codewords counted from the first pad byte fills the capacity exactly. |
| EncoderSegments.IntendedPadAlternates | ZXingSwift/QRCode/Encoder/ZXEncoder.swift:236-246 | In the intended stream, pad byte i, counted from the first pad byte, is 0xEC for even i and 0x11 for odd i. |
| EncoderSegments.SameParityPad | ZXingSwift/QRCode/Encoder/ZXEncoder.swift:242-243 | Byte indices that differ by an even number get the same pad codeword. |
| EncoderSegments.PadBytesFromEven | ZXingSwift/QRCode/Encoder/ZXEncoder.swift:242-246 | A pad run that starts at an even byte index equals the run counted from its first byte. |
| EncoderSegments.PadFromEvenIsIntended | ZXingSwift/QRCode/Encoder/ZXEncoder.swift:236-246 | When the pad run starts at an even byte index, or there is none, the stream as written is the intended one. |
| EncoderSegments.PadAsWrittenIsIntended | ZXingSwift/QRCode/Encoder/ZXEncoder.swift:211-252 | The stream as written equals the intended one exactly when the pad run starts at an even byte index or is empty. |
| EncoderBlocks.GenerateECBytes | ZXingSwift/QRCode/Encoder/ZXEncoder.swift:546-562 | The result is what `ZXReedSolomonEncoder.encode` writes in the `capacity` slots after the data, or its error. |
| EncoderBlocks.ShortBlockECBytes | ZXingSwift/QRCode/Encoder/ZXEncoder.swift:546-562 | As written, a block no longer than its EC count with a nonzero head gets its own bytes, zero-padded in front, as EC bytes. |
| EncoderBlocks.BlockSizeIsCapacity | ZXingSwift/QRCode/Encoder/ZXEncoder.swift:493-507 | In every row, block i gets `BlockSize` data bytes and `ecCodewordsPerBlock` EC bytes. |
| EncoderBlocks.DataCapacityWithin | ZXingSwift/QRCode/Encoder/ZXEncoder.swift:493-507 | Every block lies within the data capacity, and all the blocks together fill it. |
| EncoderBlocks.BlockSizesPositive | ZXingSwift/QRCode/Encoder/ZXEncoder.swift:493-507 | Every block of every row has at least one data byte and one EC byte. |
| EncoderBlocks.ErrorCorrectedOk | ZXingSwift/QRCode/Encoder/ZXEncoder.swift:463-544 | Data that fills the capacity passes every check: the result is the interleaved bytes as bits, `totalCodewords` bytes long. |
| EncoderBlocks.DataInterleaved | ZXingSwift/QRCode/Encoder/ZXEncoder.swift:517-525 | Data byte c of block j is byte c · blocks + j of the output: the data goes out column by column. |
| EncoderBlocks.ECInterleaved | ZXingSwift/QRCode/Encoder/ZXEncoder.swift:527-535 | EC byte c of block j is at MaxDataBytes + c · blocks + j: the EC bytes follow the data, column by column. |
| EncoderBlocks.ApplyErrorCorrection | ZXingSwift/QRCode/Encoder/ZXEncoder.swift:463-544 | A size mismatch is InvalidFormat; otherwise the interleaved data and EC bytes of the blocks, checked against `totalCodewords`. |
| EncoderBlocks.SplitIntoBlocks | ZXingSwift/QRCode/Encoder/ZXEncoder.swift:493-507 | The block loop cuts each block's data at the running offset, with its EC bytes, and tracks the longest data and EC parts. |
| EncodeDivergence.FirstBlockLong | ZXingSwift/QRCode/Decoder/ZXVersion.swift:361-602 | At levels L and M the first block of every row holds more than its EC count plus one data bytes. |
| EncodeDivergence.StreamHeadNonzero | ZXingSwift/QRCode/Encoder/ZXEncoder.swift:173-252 | A terminated stream starts with a nonzero byte, because its first four bits are a mode or ECI indicator. |
| EncodeDivergence.EncodableFailsAtLowAndMedium | ZXingSwift/QRCode/Encoder/ZXEncoder.swift:44-108 | Whenever the stream step succeeds at level L or M, the first block makes `ZXReedSolomonEncoder.encode` run forever, so `encode` cannot complete. |
| QREncoder.ParseVersion | ZXingSwift/QRCode/Encoder/ZXEncoder.swift:134-145 | No number gives no version; otherwise the row `lookupVersion` finds, or its IllegalArgument error. |
| QREncoder.ChosenVersionIsLowest | ZXingSwift/QRCode/Encoder/ZXEncoder.swift:60-80 | The requested version when it holds the content, otherwise the lowest-numbered later version that does, otherwise InvalidFormat. |
| QREncoder.ChooseVersionIsIntendedSearch | ZXingSwift/QRCode/Encoder/ZXEncoder.swift:60-80 | The version `encode` chooses is exactly what a search starting at the requested version finds, and InvalidFormat when it finds none; so the off-by-one search does not change `encode`. |
| QREncoder.PreparedMeaning | ZXingSwift/QRCode/Encoder/ZXEncoder.swift:44-85 | Only a rejected version number is IllegalArgument up front; the stream has the given or default level, the given or hinted character set, a mode that supports the content, its header, and the terminated shape. |
| QREncoder.SizedMeaning | ZXingSwift/QRCode/Encoder/ZXEncoder.swift:60-85 | After the payload, only the version choice (InvalidFormat) or the character count can fail. |
| QREncoder.CountedMeaning | ZXingSwift/QRCode/Encoder/ZXEncoder.swift:80-85 | On a version that holds the content `terminateCode` never throws; the stream is header, count and payload, then zeros and pad codewords up to the capacity. |
| QREncoder.EncodedMeaning | ZXingSwift/QRCode/Encoder/ZXEncoder.swift:87-108 | Error correction never fails on a stream: the codewords are `totalCodewords` bytes; the mask and matrix are those the two outside calls give. |
| QREncoder.Encode | ZXingSwift/QRCode/Encoder/ZXEncoder.swift:44-108 | The record holds the stream's mode, version and level, the chosen mask and the built matrix, or the first error. |
| QREncoder.PrepareStream | ZXingSwift/QRCode/Encoder/ZXEncoder.swift:44-90 | The steps of `encode` up to `terminateCode` return exactly the specified stream. |
| QREncoder.SizeAndTerminate | ZXingSwift/QRCode/Encoder/ZXEncoder.swift:64-90 | From the payload on, the version choice, the character count and `terminateCode` return the stream `SizedMeaning` describes, with the same errors. |
| QREncoder.CountAndTerminate | ZXingSwift/QRCode/Encoder/ZXEncoder.swift:83-90 | Once the version is chosen, the character count and `terminateCode` return the stream `CountedMeaning` describes: a count error passed on, InvalidFormat past the capacity. |
| QREncoder.Finish | ZXingSwift/QRCode/Encoder/ZXEncoder.swift:87-108 | Error correction, then the record; the result is the specified symbol. |
| ByteMatrices.ByteMatrix.constructor | ZXingSwift/QRCode/Encoder/ZXByteMatrix.swift:23-35 | A width × height grid in which every cell is 0. |
| ByteMatrices.ByteMatrix.SetValue | ZXingSwift/QRCode/Encoder/ZXByteMatrix.swift:57-59 | Exactly cell (x, y) changes. |
| ByteMatrices.ByteMatrix.SetInt | ZXingSwift/QRCode/Encoder/ZXByteMatrix.swift:61-63 | An `Int` in 0..255 is stored in cell (x, y) and nothing else changes. |
| ByteMatrices.ByteMatrix.SetBool | ZXingSwift/QRCode/Encoder/ZXByteMatrix.swift:65-67 | Dark is stored as 1 and light as 0, in cell (x, y) only. |
| ByteMatrices.ByteMatrix.Clear | ZXingSwift/QRCode/Encoder/ZXByteMatrix.swift:69-75 | Every cell takes the value; clearing with the empty value 0xFF leaves every cell empty. |
| MaskUtils.DataMaskBit | ZXingSwift/QRCode/Encoder/ZXMaskUtils.swift:179-222 | IllegalArgument exactly for masks outside 0..7; `MaskMatchesStandard` and `MaskPeriodic` state the mask values. |
| MaskUtils.MaskMatchesStandard | ZXingSwift/QRCode/Encoder/ZXMaskUtils.swift:179-222 | Inside a symbol the eight masks are those of ISO/IEC 18004 Table 10. |
| MaskUtils.MaskPeriodic | ZXingSwift/QRCode/Encoder/ZXMaskUtils.swift:179-222 | Every mask repeats every 6 columns and every 12 rows. |
| MaskUtils.LinePenaltyZero | ZXingSwift/QRCode/Encoder/ZXMaskUtils.swift:34-77 | A line scores nothing under rule 1 exactly when it has no five equal cells in a row. |
| MaskUtils.Rule1Zero | ZXingSwift/QRCode/Encoder/ZXMaskUtils.swift:29-77 | Rule 1 is zero exactly when no row and no column has five equal cells in a row. |
| MaskUtils.PenaltyRule1 | ZXingSwift/QRCode/Encoder/ZXMaskUtils.swift:29-32 | The horizontal scan plus the vertical scan, each N1 + (run - 5) per run of at least five. |
| MaskUtils.DirectionalPenalty | ZXingSwift/QRCode/Encoder/ZXMaskUtils.swift:34-77 | One scan direction sums the rule-1 penalty of every line. |
| MaskUtils.LineRunPenalty | ZXingSwift/QRCode/Encoder/ZXMaskUtils.swift:44-71 | The inner loop scores each maximal run of one line once, at its end. |
| MaskUtils.WindowsZero | ZXingSwift/QRCode/Encoder/ZXMaskUtils.swift:84-106 | Rule 2 is zero only for a grid without uniform 2 × 2 windows. |
| MaskUtils.PenaltyRule2 | ZXingSwift/QRCode/Encoder/ZXMaskUtils.swift:84-106 | On a grid with at least one row, N2 times the number of uniform 2 × 2 windows. |
| MaskUtils.IsValidRun | ZXingSwift/QRCode/Encoder/ZXMaskUtils.swift:152-157 | No dark cell in the range clamped to the line. |
| MaskUtils.StartsWithoutDark | ZXingSwift/QRCode/Encoder/ZXMaskUtils.swift:112-150 | Every rule-3 match holds a dark cell, so a grid without dark cells scores nothing. |
| MaskUtils.PenaltyRule3 | ZXingSwift/QRCode/Encoder/ZXMaskUtils.swift:112-150 | N3 times the number of finder-like matches along rows and columns. |
| MaskUtils.Rule4Bounds | ZXingSwift/QRCode/Encoder/ZXMaskUtils.swift:162-177 | The rule-4 penalty lies in [0, 100] and is 0 for an even split of dark and light. |
| MaskUtils.PenaltyRule4 | ZXingSwift/QRCode/Encoder/ZXMaskUtils.swift:162-177 | On a non-empty grid, 10 · (\|2 dark - total\| · 10 / total), between 0 and 100, and 0 for an even split. |
| QRCodes.IsValidMask | ZXingSwift/QRCode/Encoder/ZXQRCode.swift:29-32 | A mask is valid exactly when `getDataMaskBit` accepts it, 0..7. |
| QRCodes.QRCode.constructor | ZXingSwift/QRCode/Encoder/ZXQRCode.swift:25-27 | A fresh record has no mode, level, version or matrix and mask -1. |
| MatrixPatterns.FinderPattern | ZXingSwift/QRCode/Encoder/ZXMatrixUtils.swift:478-486 | A 7 × 7 grid of module values. |
| MatrixPatterns.AlignmentPattern | ZXingSwift/QRCode/Encoder/ZXMatrixUtils.swift:488-494 | A 5 × 5 grid of module values. |
| MatrixPatterns.PlacePattern | ZXingSwift/QRCode/Encoder/ZXMatrixUtils.swift:73-182 | Unspecified at the first cell already set; otherwise the pattern is shown at its place and nothing else changes. |
| MatrixPatterns.EncodeFinderCorner | ZXingSwift/QRCode/Encoder/ZXMatrixUtils.swift:51-117 | One corner: the finder pattern with its light horizontal and vertical separators, or the first conflict. |
| MatrixPatterns.EncodeFinderPatterns | ZXingSwift/QRCode/Encoder/ZXMatrixUtils.swift:51-71 | The three finder patterns with their separators are shown in the three corners, or the first conflict is reported. |
| MatrixPatterns.EncodeDarkModule | ZXingSwift/QRCode/Encoder/ZXMatrixUtils.swift:123-133 | Cell (8, height - 8) becomes dark, or Unspecified with nothing changed when it is already set. |
| MatrixPatterns.AlignmentPositions | ZXingSwift/QRCode/Encoder/ZXMatrixUtils.swift:524-565 | The table has centres exactly for versions 1..40, and none for version 1. |
| MatrixPatterns.AlignmentPositionsApart | ZXingSwift/QRCode/Encoder/ZXMatrixUtils.swift:524-565 | Every version's centres increase strictly, at least 16 modules apart. |
| MatrixPatterns.EncodePositionAlignmentPatterns | ZXingSwift/QRCode/Encoder/ZXMatrixUtils.swift:140-156 | Version 1 gets nothing; a version missing from the table is Unspecified; otherwise an alignment pattern is shown around every centre that was empty, and set centres are skipped. |
| MatrixPatterns.AlignmentRow | ZXingSwift/QRCode/Encoder/ZXMatrixUtils.swift:144-154 | One row of centres: every empty centre gets an alignment pattern, and the row completes exactly when no placement conflicts. |
| MatrixPatterns.TimingModule | ZXingSwift/QRCode/Encoder/ZXMatrixUtils.swift:187-221 | The timing module at position idx is dark exactly at even positions. |
| MatrixPatterns.EncodeTimingPatterns | ZXingSwift/QRCode/Encoder/ZXMatrixUtils.swift:187-221 | Row 6 and column 6, from 8 up to width - 9, take the alternating timing value where empty; every other cell stays as it was. |
| MatrixPatterns.AlignmentPositionsAgree | ZXingSwift/QRCode/Encoder/ZXMatrixUtils.swift:524-565 | The centres of this table and those recorded in each version row agree. |
| Bch.BchReduceIsRemainder | ZXingSwift/QRCode/Encoder/ZXMatrixUtils.swift:427-443 | The loop's result is the GF(2) remainder of its start modulo poly: they differ by a multiple of poly, and it is shorter than poly. |
| Bch.CalculateBCHCode | ZXingSwift/QRCode/Encoder/ZXMatrixUtils.swift:427-443 | A zero polynomial is IllegalArgument; otherwise the code is shorter than poly and, for a positive input, the GF(2) remainder of `(input << msb) - 1` modulo poly. |
| Bch.IntendedBchCode | ZXingSwift/QRCode/Encoder/ZXMatrixUtils.swift:397-426 | The intended code is the remainder of input · x^deg modulo poly, shorter than poly. |
| Bch.VersionSevenAsWritten | ZXingSwift/QRCode/Encoder/ZXMatrixUtils.swift:427-443 | As written, version 7 gets check bits 0x7B8. |
| Bch.VersionSevenIntended | ZXingSwift/QRCode/Encoder/ZXMatrixUtils.swift:397-426 | The intended code of version 7 is 0xC94, the value the comment works out. |
| MatrixInfo.FormatInfoPosition | ZXingSwift/QRCode/Encoder/ZXMatrixUtils.swift:457-473 | The 15 format positions go up column 8 and then left along row 8, avoiding the timing module. |
| MatrixInfo.FormatInfoPositionsDistinct | ZXingSwift/QRCode/Encoder/ZXMatrixUtils.swift:457-473 | The fifteen positions are distinct. |
| MatrixInfo.ApplyWritesCell | ZXingSwift/QRCode/Encoder/ZXMatrixUtils.swift:335-395 | After a list of writes, a cell holds its last write, or its old value when nothing writes it. |
| MatrixInfo.FormatWord | ZXingSwift/QRCode/Encoder/ZXMatrixUtils.swift:335-395 | The format word has 15 bits; `FormatWordLevelAndMask` and `FormatWordCheckBits` state what they hold. |
| MatrixInfo.EncodeFormatInformation | ZXingSwift/QRCode/Encoder/ZXMatrixUtils.swift:335-395 | A mask outside 0..7 is Unspecified with nothing written; otherwise the grid after the writes of the masked format word. |
| MatrixInfo.MaskFormatBits | ZXingSwift/QRCode/Encoder/ZXMatrixUtils.swift:355-362 | The loop exclusive-ors the mask bits into the format bits. |
| MatrixInfo.PlaceFormatBits | ZXingSwift/QRCode/Encoder/ZXMatrixUtils.swift:364-393 | The placement loop makes the format writes in order, reading the word from its last bit back. |
| MatrixInfo.FormatWordLevelAndMask | ZXingSwift/QRCode/Encoder/ZXMatrixUtils.swift:335-395 | The first five unmasked bits parse back to the level and mask the word was made from. |
| MatrixInfo.FormatWordCheckBits | ZXingSwift/QRCode/Encoder/ZXMatrixUtils.swift:335-443 | The last ten unmasked bits are the BCH check bits of the format value modulo 0x537. |
| MatrixInfo.FormatTopLeftIntact | ZXingSwift/QRCode/Encoder/ZXMatrixUtils.swift:335-395 | On a matrix of at least 17 × 17, every cell of the top-left copy ends up holding its bit of the word. |
| MatrixInfo.FormatTopRightIntact | ZXingSwift/QRCode/Encoder/ZXMatrixUtils.swift:335-395 | The top-right copy along row 8 holds bits 14..7 of the word. |
| MatrixInfo.FormatBottomLeftIntact | ZXingSwift/QRCode/Encoder/ZXMatrixUtils.swift:335-395 | On a matrix at least 24 high, the copy down column 8 holds bits 14..7; the last lands on the dark module's row. |
| MatrixInfo.FormatOverwritesDarkModule | ZXingSwift/QRCode/Encoder/ZXMatrixUtils.swift:385-392 | On a matrix at least 24 high, the dark module at (8, height - 8) ends up holding bit 7 of the word. |
| MatrixInfo.FormatBottomRowsUntouched | ZXingSwift/QRCode/Encoder/ZXMatrixUtils.swift:377-393 | No format write reaches column 8 at rows height - 7..height - 1; those cells keep what they held, so bits 6..0 get no second copy. |
| MatrixInfo.IntendedFormatCopies | ZXingSwift/QRCode/Encoder/ZXMatrixUtils.swift:377-393 | In the intended placement, on a matrix at least 17 wide and high, the top-left cell and the second cell of every bit of the word both hold that bit. |
| MatrixInfo.IntendedFormatKeepsDarkModule | ZXingSwift/QRCode/Encoder/ZXMatrixUtils.swift:385-392 | The intended placement leaves the dark module at (8, height - 8) as it was. |
| MatrixVersionInfo.VersionInfoBits | ZXingSwift/QRCode/Encoder/ZXMatrixUtils.swift:295-329 | The version word has 18 bits; `VersionInfoBitsFields` states what they hold. |
| MatrixVersionInfo.VersionShiftFits | ZXingSwift/QRCode/Encoder/ZXMatrixUtils.swift:295-329 | Every version number shifted by 13 bits fits in a 64-bit `Int`. |
| MatrixVersionInfo.EncodeVersionInformation | ZXingSwift/QRCode/Encoder/ZXMatrixUtils.swift:295-329 | Versions below 7 write nothing; otherwise the grid after the writes of the 18 bits to both 6 × 3 blocks. |
| MatrixVersionInfo.PlaceVersionBits | ZXingSwift/QRCode/Encoder/ZXMatrixUtils.swift:311-327 | The nested loops make the 36 version writes in order, reading the bits from the last back. |
| MatrixVersionInfo.PlaceVersionBit | ZXingSwift/QRCode/Encoder/ZXMatrixUtils.swift:315-325 | One inner iteration writes bit 17 - p to both blocks. |
| MatrixVersionInfo.VersionInfoBitsFields | ZXingSwift/QRCode/Encoder/ZXMatrixUtils.swift:295-329 | The first six bits are the version number and the rest its check bits modulo 0x1F25. |
| MatrixVersionInfo.VersionBlocksIntact | ZXingSwift/QRCode/Encoder/ZXMatrixUtils.swift:295-329 | The 36 writes go to 36 different cells, so both blocks end up holding every bit. |
| MatrixData.FillCellsHalted | ZXingSwift/QRCode/Encoder/ZXMatrixUtils.swift:227-287 | Once the scan has stopped, later visits change nothing. |
| MatrixData.Finish | ZXingSwift/QRCode/Encoder/ZXMatrixUtils.swift:281-286 | Finishing always halts the scan and leaves the grid and the count of consumed bits as they were. |
| MatrixData.EncodeData | ZXingSwift/QRCode/Encoder/ZXMatrixUtils.swift:227-287 | The method's outcome and grid are those of the data-placement fold over the cells it visits. |
| MatrixData.ScanRows | ZXingSwift/QRCode/Encoder/ZXMatrixUtils.swift:246-276 | The row loop visits the first upward pass only: `rowIdx` is never reset, so later passes visit nothing. |
| MatrixData.VisitPair | ZXingSwift/QRCode/Encoder/ZXMatrixUtils.swift:250-272 | The pair loop visits (colIdx, row) and then (colIdx + 1, row), stopping at a halt. |
| MatrixData.VisitCell | ZXingSwift/QRCode/Encoder/ZXMatrixUtils.swift:252-271 | One visit: outside the matrix it traps; a set cell is skipped; an empty cell takes the next stream bit under the mask. |
| MatrixData.FillInMatrix | ZXingSwift/QRCode/Encoder/ZXMatrixUtils.swift:227-287 | Over distinct cells inside the matrix with a valid mask, the empty cells take the stream bits in scan order and set cells keep their values. |
| MatrixData.EncodeDataTraps | ZXingSwift/QRCode/Encoder/ZXMatrixUtils.swift:250 | For any width other than 7, the scan's second cell is in column `width`, outside the matrix, so the method traps (or throws on an invalid mask). |
| MatrixData.FirstVisit | ZXingSwift/QRCode/Encoder/ZXMatrixUtils.swift:250-272 | The first visit, at the bottom-right cell, fills it if empty and changes nothing else. |
| MatrixData.EncodeDataWidthSeven | ZXingSwift/QRCode/Encoder/ZXMatrixUtils.swift:227-287 | On a 7-wide matrix the scan is one upward pass over columns 5 and 6, and completes exactly when that pass has enough empty cells. |
| DataZigzag.ZigzagCellsDistinct | ZXingSwift/QRCode/Encoder/ZXMatrixUtils.swift:227-287 | The intended zigzag visits distinct cells, all inside the matrix. |
| DataZigzag.ZigzagCellsCover | ZXingSwift/QRCode/Encoder/ZXMatrixUtils.swift:227-287 | The intended zigzag visits every cell outside the timing column. |
| DataZigzag.IntendedPlacementFills | ZXingSwift/QRCode/Encoder/ZXMatrixUtils.swift:227-287 | The intended placement stays inside the matrix, completes exactly when there are enough empty cells, then leaves no cell outside the timing column empty and keeps every set cell. |
| MatrixBuild.CentresFitDimension | ZXingSwift/QRCode/Encoder/ZXMatrixUtils.swift:524-565 | On the 17 + 4n matrix of version n every alignment pattern lies inside the matrix. |
| MatrixBuild.Build | ZXingSwift/QRCode/Encoder/ZXMatrixUtils.swift:28-45 | As written the build never completes: an invalid mask is Unspecified at the format step, and otherwise the build ends in Unspecified or in the data step's trap. |
| BitMatrices.BitMatrix.constructor | ZXingSwift/Common/ZXBitMatrix.swift:27-39 | A dimension below 1 becomes 1, and every bit holds the default value. |
| BitMatrices.BitMatrix.Size | ZXingSwift/Common/ZXBitMatrix.swift:41-43 | The size is width × height. |
| BitMatrices.BitMatrix.Value | ZXingSwift/Common/ZXBitMatrix.swift:52-57 | The bit at row · width + column, or false outside the array; an in-matrix cell reads its own bit. |
| BitMatrices.BitMatrix.ValueAtIndex | ZXingSwift/Common/ZXBitMatrix.swift:63-65 | `value(index:)` is the cell (index / width, index % width). |
| BitMatrices.BitMatrix.RowValues | ZXingSwift/Common/ZXBitMatrix.swift:67-76 | The bits of a row, left to right; empty for a row outside the matrix. |
| BitMatrices.BitMatrix.Coordinates | ZXingSwift/Common/ZXBitMatrix.swift:78-85 | None exactly outside the array; otherwise a cell inside the matrix on the row that holds the index (row · width + index % width == index). The column, `row % width` as written, is only bounded. |
| BitMatrices.CoordinatesColumnDiverges | ZXingSwift/Common/ZXBitMatrix.swift:82 | In a 2 × 2 matrix index 1 (row 0, column 1) is reported at column 0. |
| BitMatrices.BitMatrix.IntendedCoordinates | ZXingSwift/Common/ZXBitMatrix.swift:78-85 | With column index % width, the named cell holds the bit at that index. |
| BitMatrices.IntendedCoordinatesOfCell | ZXingSwift/Common/ZXBitMatrix.swift:78-85 | The intended coordinates find every cell again from its flat index. |
| BitMatrices.BitMatrix.SetValue | ZXingSwift/Common/ZXBitMatrix.swift:88-93 | Exactly the bit at row · width + column changes, and nothing when that index is outside. |
| BitMatrices.BitMatrix.SetRegion | ZXingSwift/Common/ZXBitMatrix.swift:101-121 | Every cell of a fitting rectangle takes the value and every other cell is unchanged; otherwise nothing changes. |
| BitMatrices.BitMatrix.SetRegionBetween | ZXingSwift/Common/ZXBitMatrix.swift:96-98 | The rectangle from (minX, minY) up to but excluding (maxX, maxY). |
| BitMatrices.BitMatrix.Reset | ZXingSwift/Common/ZXBitMatrix.swift:123-127 | Every bit takes the value. |
| BitMatrices.BitMatrix.FindTopLeftOnBit | ZXingSwift/Common/ZXBitMatrix.swift:130-143 | None exactly when no bit is set; otherwise the coordinates of the first set bit in row-major order. |
| BitMatrices.BitMatrix.FindBottomRightOnBit | ZXingSwift/Common/ZXBitMatrix.swift:146-159 | None exactly when no bit is set; otherwise the coordinates of the last set bit in row-major order. |
| BitMatrices.CellsDetermine | ZXingSwift/Common/ZXBitMatrix.swift:52-65 | Two arrays of one shape that agree on every cell are equal. |
| QRCodeWriter.Place | ZXingSwift/QRCode/ZXQRCodeWriter.swift:56-105 | The output is at least the requested size and the symbol with margins; `multiple` is the largest whole scale that fits; the padding centres the symbol. |
| QRCodeWriter.ModuleSquares | ZXingSwift/QRCode/ZXQRCodeWriter.swift:87-102 | Every dark module is a black multiple × multiple square at its place, and every other output cell is white. |
| QRCodeWriter.DrawModule | ZXingSwift/QRCode/ZXQRCodeWriter.swift:90-98 | One module, if dark, becomes a black square at (outputX, outputY). |
| QRCodeWriter.DrawRow | ZXingSwift/QRCode/ZXQRCodeWriter.swift:87-102 | The modules of row y are drawn left to right. |
| QRCodeWriter.Render | ZXingSwift/QRCode/ZXQRCodeWriter.swift:56-105 | No matrix is IllegalArgument; otherwise a white matrix of the placement's size with every dark module drawn as its square. |
| QRCodeWriter.LevelFor | ZXingSwift/QRCode/ZXQRCodeWriter.swift:15-46 | The level the encoder's option parsing keeps; without hints, L. |
| QRCodeWriter.ArgumentError | ZXingSwift/QRCode/ZXQRCodeWriter.swift:25-44 | The checks pass exactly on non-empty contents, the QR Code format and a positive size; a wrong format is InvalidFormat, the other failures Unspecified. |
| QRCodeWriter.Encode | ZXingSwift/QRCode/ZXQRCodeWriter.swift:25-51 | Empty contents, a format other than QR Code or a non-positive size fail with `ArgumentError`'s error for every input, before the encoder runs; arguments that pass give the encoder's result with the hints' level or L, rendered with the default margin 0. |
| QRCodeWriter.EncodeAndRender | ZXingSwift/QRCode/ZXQRCodeWriter.swift:42-51 | After the checks: an encoder error is passed on unchanged; otherwise the symbol's matrix rendered with margin 0 into a fresh bit matrix. |
| CodabarReader.TransformAlternateGuardCharacters | ZXingSwift/OneDimensional/ZXCodabarReader.swift:74-82 | The length is kept, every alternate spelling becomes its start/stop character, every other character is kept, and no alternate spelling is left. |
| CodabarReader.EncodedCharacterLength | ZXingSwift/OneDimensional/ZXCodabarReader.swift:84-109 | A length, when there is one, is 9 or 10 modules; `LengthsAndKeys` and `EncodedLengthMatchesCode` say which characters have one and which. |
| CodabarReader.EncodedLengthMatchesCode | ZXingSwift/OneDimensional/ZXCodabarReader.swift:20-109 | Every code fits in seven bits, and a character's length is its seven elements plus one per wide element. |
| CodabarReader.LengthsAndKeys | ZXingSwift/OneDimensional/ZXCodabarReader.swift:20-109 | The characters with a length are exactly the table's keys and the alternate spellings; an alternate spelling is not a key, normalises to one, and has length 10. |
| CodabarReader.GuardCharactersListed | ZXingSwift/OneDimensional/ZXCodabarReader.swift:43-72 | The start/stop characters are exactly A, B, C and D. |
| CodabarWriter.GuardedSourceMeaning | ZXingSwift/OneDimensional/ZXCodabarWriter.swift:75-98 | The check fails exactly when one normalised end is a start/stop character and the other is not; otherwise the string, possibly between two added A's. |
| CodabarWriter.VerifyGuardCharacters | ZXingSwift/OneDimensional/ZXCodabarWriter.swift:75-98 | The method returns the specified guarded string or its InvalidFormat error. |
| CodabarWriter.LengthSumMeaning | ZXingSwift/OneDimensional/ZXCodabarWriter.swift:100-112 | The sum is defined exactly when every character has a length (InvalidFormat otherwise), and lies between 9 and 10 modules per character. |
| CodabarWriter.CalculateEncodedLength | ZXingSwift/OneDimensional/ZXCodabarWriter.swift:100-112 | The loop sums the lengths plus the gaps, stopping at the first error. |
| CodabarWriter.CodesMeaning | ZXingSwift/OneDimensional/ZXCodabarWriter.swift:114-126 | The codes are seven-bit values; no character is dropped exactly when all are in the table, and then the codes are the table's, position by position. |
| CodabarWriter.GetCodabarEncoding | ZXingSwift/OneDimensional/ZXCodabarWriter.swift:114-126 | The loop returns the codes of the characters in the table, in order. |
| CodabarWriter.RunsStartBlack | ZXingSwift/OneDimensional/ZXCodabarWriter.swift:48-64 | Every character's pattern begins with a bar. |
| CodabarWriter.RenderedWithin | ZXingSwift/OneDimensional/ZXCodabarWriter.swift:19-73 | The modules written fit the encoded length, exactly filling it when no character is dropped. |
| CodabarWriter.EncodingMeaning | ZXingSwift/OneDimensional/ZXCodabarWriter.swift:19-73 | The output has the encoded length and starts with a bar; for two or more characters every character is encoded with nothing padded; the only error is InvalidFormat. |
| CodabarWriter.WrittenIsRendered | ZXingSwift/OneDimensional/ZXCodabarWriter.swift:41-70 | After k characters the output holds the patterns of those k, with a separating module when more follow. |
| CodabarWriter.Encode | ZXingSwift/OneDimensional/ZXCodabarWriter.swift:19-73 | The result is the specified encoding of the contents, or its error. |
| CodabarWriter.RenderCodes | ZXingSwift/OneDimensional/ZXCodabarWriter.swift:41-70 | Every code's pattern, with a white module after each but the last, over `encodedLength` white modules. |
| CodabarWriter.WriteCharacter | ZXingSwift/OneDimensional/ZXCodabarWriter.swift:41-70 | One character's pattern, then a white module unless it is the last. |
| CodabarWriter.EncodeCharacter | ZXingSwift/OneDimensional/ZXCodabarWriter.swift:48-64 | The seven elements of one character are written from `globalPosition` on, two modules per wide element. |
| CodabarWriter.ElementStep | ZXingSwift/OneDimensional/ZXCodabarWriter.swift:48-64 | One loop pass paints its module and either completes the element or writes the first module of a wide one. |
| CodabarWriter.EncodeMatrix | ZXingSwift/OneDimensional/ZXOneDimensionalCodeWriter.swift:32-59 | The argument checks, then the Codabar bars rendered with the default margin 10. |
| OneDimensionalWriter.CheckedBarcode | ZXingSwift/OneDimensional/ZXOneDimensionalCodeWriter.swift:32-59 | Empty contents, then a non-positive size, are Unspecified; otherwise the format's own bars or their error. |
| OneDimensionalWriter.RenderLayout | ZXingSwift/OneDimensional/ZXOneDimensionalCodeWriter.swift:64-91 | The output is at least as wide as the barcode with its margin and at least one row high; `multiple` is the largest scale that fits. |
| OneDimensionalWriter.BarColumns | ZXingSwift/OneDimensional/ZXOneDimensionalCodeWriter.swift:80-89 | A black bar darkens exactly its `multiple` columns; columns outside the bars stay white. |
| OneDimensionalWriter.Render | ZXingSwift/OneDimensional/ZXOneDimensionalCodeWriter.swift:64-91 | A white matrix of the layout's size with every black bar drawn as a full-height stripe. |
| OneDimensionalWriter.DrawBar | ZXingSwift/OneDimensional/ZXOneDimensionalCodeWriter.swift:80-89 | One bar, if black, as a full-height stripe at outputX. |
| OneDimensionalWriter.Encode | ZXingSwift/OneDimensional/ZXOneDimensionalCodeWriter.swift:32-59 | The argument checks, then the format's bars rendered with the default margin. |
| OneDimensionalWriter.BaseRendersWhite | ZXingSwift/OneDimensional/ZXOneDimensionalCodeWriter.swift:28-30 | With the base `encode(contents:)`, the rendered matrix is all white. |

## Left out

- Foundation string conversions are inputs. `content.data(using:)`, the
  Shift-JIS conversion, Kanji `supportsContent` and the character set's
  `encoding` are the fields of `QREncoder.Conversions` and the
  `encoded` parameters: each is the byte list the conversion would give,
  or None when it fails.
- CodabarWriter.Encode: `uppercased(with:)` is the caller's `upper`
  argument, because locale-dependent case mapping is a Foundation call.
- QREncoder.Encode: `ZXMode.calculateCharacterCount`,
  `ZXByteMatrix.lookupMaskPattern` and the builder
  `ZXByteMatrix(data:errorCorrectionLevel:version:maskPattern:)` are not
  in the source files. They are function parameters whose outcomes are
  taken as given.
- Swift's `Int` is an unbounded `int`. Where 64-bit overflow matters it
  is proved not to happen: `VersionShiftFits`, `FormatShiftFits` and
  `DifferentBitCountInt64`. `UInt8` and `UInt32` are modelled where the
  source relies on them: the Kanji shift, `UInt8(newValue)` and the
  `UInt32` digit subtraction.
- `ZXByteMatrix` is a Swift struct with value semantics. It is a Dafny
  class here, and the encoder never shares one between two owners.
- The memoisation of `Zero` and `One` in `_zero`/`_one` is dropped. The
  accessors return the same polynomial value every time.
- CodabarReader.TransformAlternateGuardCharacters iterates the dictionary
  `AlternateGuardCharacters` in the fixed order T, N, *, E. Swift's
  dictionary order is unspecified. The replacements touch disjoint
  characters, so every order gives the same result.
- OneDimensionalWriter.Encode uses `DefaultMargin` always. The margin
  hint loop refers to a `hints` value that the file does not declare.
- A Swift `String`'s `count` counts grapheme clusters. Here a string is
  a sequence of Unicode scalars, and its length is the number of
  scalars.
- `shouldSkipMasking` (default false) in `encodeData` is not modelled.
  The mask is always applied.
- The Aztec, DataMatrix and MaxiCode field constants are left out
  because the QR encoder does not use them.
- `ZXVersion.buildFunctionPattern` is left out. It serves the decoder,
  which is not part of this model.
- The name and encoding matching of `ZXCharacterSetECI` is left out,
  because it uses locale-dependent Foundation comparisons. This covers
  `matches(name:)`, `matches(encoding:)`, `lookup(name:)`,
  `lookup(encoding:)`, `name`, `aliases` and `supportedEncodings`.
- Logging, `debugDescription`, the hint and option types, the
  multi-format factory, `ZXBlockPair` (folded into a pair of byte lists)
  and `TextUtils` are left out: they contain no logic to prove.
- GenericGFPoly.Divide: `requires` that the dividend is zero or no
  longer than the divisor. Under that requirement the loop runs at most
  one round. A longer dividend makes the source loop forever, because
  `multiply(degree:coefficient:)` does not shift; `LongDataDiverges`
  proves this.
- ReedSolomon.ReedSolomonEncoder.Encode: `requires` the data to be no
  longer than ecBytes + 1 (or headed by zero). For longer data the
  source never returns (see "## Findings"); a requires is the only way
  to state a method that does not terminate.
- QREncoder.Encode, EncoderBlocks.ApplyErrorCorrection,
  QRCodeWriter.EncodeAndRender: these carry the same termination
  requirement on every block. `EncodeDivergence.EncodableFailsAtLowAndMedium`
  proves that it fails at levels L and M, so the contracts speak only of
  levels Q and H.
- QRCodeWriter.Encode asks for that requirement only of arguments that
  pass its checks. Its argument errors hold for every input and level.
  Its encoding result is stated at levels Q and H only.
- The corrected halves are proved on their own and not wired back into
  `Build` and `Encode`: `DataZigzag.IntendedPlacement`,
  `RSRemainder.IntendedECCodewords`, `Bch.IntendedBchCode`,
  `EncoderSegments.IntendedKanjiPayload`,
  `BitMatrices.BitMatrix.IntendedCoordinates`, `PolyAlgebra.AddNormalised`,
  `MatrixInfo.IntendedFormatWrites`, `EncoderSegments.IntendedTerminated`
  and `QRVersions.IntendedLookupSupportedVersion`. `Build` and `Encode` model the source as
  written.

## Findings

| source | as written | input that shows it | evidently intended | confidence | as-written member | corrected member |
|---|---|---|---|---|---|---|
| ZXingSwift/Common/ReedSolomon/ZXGenericGFPoly.swift:203-218 | `multiply(degree:coefficient:)` scales the coefficients but never appends `degree` zeros. `encode` therefore divides the unshifted data by the generator. Longer data makes `divide` loop forever, and short data is returned as its own "remainder". | every L or M symbol; the byte 1 with two EC bytes over the QR field gives EC bytes [0, 1] | EC codewords = data · x^ecBytes mod generator, so that the generator divides the codeword | not executed | ReedSolomon.ReedSolomonEncoder.LongDataDiverges, EncodeDivergence.EncodableFailsAtLowAndMedium, EncoderBlocks.ShortBlockECBytes, RSRemainder.ShortBlockAsWritten | RSRemainder.IntendedECCodewords, RSRemainder.CodewordVanishes, RSRemainder.QRCodewordVanishes |
| ZXingSwift/QRCode/Encoder/ZXMatrixUtils.swift:435 | The BCH start is `(input << msb) - 1`. The `- 1` sets every low bit. | version 7 with 0x1F25 gives 0x7B8 | input · x^deg mod poly; for version 7 this is 0xC94, the value the comment at lines 397-426 works out | not executed | Bch.VersionSevenAsWritten | Bch.IntendedBchCode, Bch.VersionSevenIntended |
| ZXingSwift/QRCode/Encoder/ZXMatrixUtils.swift:250-274 | The scan visits `colIdx` and `colIdx + 1` from `colIdx = width - 1`, and never brings `rowIdx` back into range. | any symbol (width 21 or more): the second cell is in column `width` | the zigzag of ISO/IEC 18004 section 7.7.3: column pairs from the right edge, skipping the timing column, which fills every empty cell | not executed | MatrixData.EncodeDataTraps | DataZigzag.IntendedPlacementFills |
| ZXingSwift/Common/ZXBitMatrix.swift:82 | `coordinates(index:)` computes the column as `row % width`. | 2 × 2 matrix, index 1 | column `index % width`, the inverse of the row-major layout | not executed | BitMatrices.CoordinatesColumnDiverges | BitMatrices.BitMatrix.IntendedCoordinates, BitMatrices.IntendedCoordinatesOfCell |
| ZXingSwift/QRCode/Encoder/ZXEncoder.swift:432 | `upperByte << 8` is computed on a `UInt8`, so the high byte is lost and no pair lies in a Kanji range. | the Shift-JIS pair 0x81 0x40 | a 16-bit raw code, giving 13 bits per character | not executed | EncoderSegments.KanjiShiftAsWritten | EncoderSegments.IntendedKanjiPayload, EncoderSegments.KanjiRoundTrip |
| ZXingSwift/Common/ReedSolomon/ZXGenericGFPoly.swift:58-66 | With a zero head, the initialiser slices at the first nonzero value instead of at its position. | [0, 2, 7] becomes [7]; [1, 0, 5] + [1, 0, 4] + [1, 0, 4] is not [1, 0, 5] | leading zeros stripped, so that (p + q) + q == p | not executed | PolyAlgebra.AddTwiceAsWritten, GenericGF.MakePolySlicesByValue, PolyAlgebra.MultiplyZeroHeadedAsWritten | PolyAlgebra.AddNormalised, PolyAlgebra.AddNormalisedTwice |
| ZXingSwift/QRCode/Encoder/ZXMatrixUtils.swift:385-392 | The second copy of bits 6..0 sits inside `if (idx < 8)`, at (8, height - 7 + (idx - 8)). So the copies of bits 14..7 go down column 8 at rows height - 15..height - 8. The last one overwrites the dark module, and bits 6..0 get no second copy. | any symbol at least 24 modules high, for example version 2 (25 × 25): cells (8, 18)..(8, 24) get no format bit, and the dark module (8, 17) takes bit 7 of the word | bits 14..7 along row 8 at the top right, bits 6..0 down column 8 at rows height - 7..height - 1, the dark module left alone (ISO/IEC 18004 section 7.9.1) | not executed | MatrixInfo.FormatOverwritesDarkModule, MatrixInfo.FormatBottomRowsUntouched | MatrixInfo.IntendedFormatCopies, MatrixInfo.IntendedFormatKeepsDarkModule |
| ZXingSwift/QRCode/Encoder/ZXEncoder.swift:242-246 | The pad codeword is `PadCodewords[(idx & 0x1)]`, with `idx` counted from the start of the stream. A pad run that starts at an odd byte index therefore starts with 0x11. | numeric "1" in a version 1 symbol: 4 + 10 + 4 bits, terminated and aligned to 3 bytes, so the first pad byte, byte 3, is 0x11 | pad codewords counted from the first pad byte, starting with 0xEC (ISO/IEC 18004 section 7.4.10) | not executed | EncoderSegments.FirstPadAsWritten, EncoderSegments.PadFromOddDiffers | EncoderSegments.IntendedTerminated, EncoderSegments.IntendedPadAlternates, EncoderSegments.PadAsWrittenIsIntended |
| ZXingSwift/QRCode/Decoder/ZXVersion.swift:206-208 | `Versions.suffix(from: versionNumber)` starts at the version after the requested one, since `Versions` is indexed from 0 and version numbers from 1. The doc comment says the search begins at the requested version. `encode` only searches when the requested version does not fit, so its result is the same. | a requested version that holds the content: the search returns a later version, or nothing | the search starts at the requested version | not executed | QRVersions.LookupSkipsRequestedAsWritten | QRVersions.IntendedLookupSupportedVersion, QRVersions.IntendedSupportedVersionIsLowest, QREncoder.ChooseVersionIsIntendedSearch |
