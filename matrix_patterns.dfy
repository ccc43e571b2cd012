/** ZXMatrixUtils.swift, function patterns: the finder patterns with their
    separators, the dark module, the position alignment patterns and the
    timing patterns that `build` places on a cleared ZXByteMatrix before any
    data. Every placement checks that it claims only empty cells. */
module MatrixPatterns {
  import opened Errors
  import opened ByteMatrices
  import QRVersions

  /** How one of the mutating, throwing steps of `build` ends: normally, by
      throwing, or by a Swift runtime trap (an index out of range). */
  datatype Outcome = Completed | Failed(error: ZXError) | Trapped

  /** `TimingPatternCoordinateIndex`: row and column 6 carry the timing lines. */
  const TimingIndex := 6

  /** `FinderPattern`: 7x7 modules, 1 dark and 0 light. */
  function FinderPattern(): (r: seq<seq<int>>)
    ensures IsPattern(r) && |r| == 7 && |r[0]| == 7
  {
    [ [1, 1, 1, 1, 1, 1, 1],
      [1, 0, 0, 0, 0, 0, 1],
      [1, 0, 1, 1, 1, 0, 1],
      [1, 0, 1, 1, 1, 0, 1],
      [1, 0, 1, 1, 1, 0, 1],
      [1, 0, 0, 0, 0, 0, 1],
      [1, 1, 1, 1, 1, 1, 1] ]
  }

  /** `PositionAlignmentPattern`: 5x5 modules. */
  function AlignmentPattern(): (r: seq<seq<int>>)
    ensures IsPattern(r) && |r| == 5 && |r[0]| == 5
  {
    [ [1, 1, 1, 1, 1],
      [1, 0, 0, 0, 1],
      [1, 0, 1, 0, 1],
      [1, 0, 0, 0, 1],
      [1, 1, 1, 1, 1] ]
  }

  /** The separators are light: `SeparatorPatternDimensions_Horizontal`
      is 8x1 and `SeparatorPatternDimensions_Vertical` 1x7. */
  function HorizontalSeparator(): (r: seq<seq<int>>)
    ensures IsPattern(r) && |r| == 1 && |r[0]| == 8
  {
    [[0, 0, 0, 0, 0, 0, 0, 0]]
  }

  function VerticalSeparator(): (r: seq<seq<int>>)
    ensures IsPattern(r) && |r| == 7 && |r[0]| == 1
  {
    [[0], [0], [0], [0], [0], [0], [0]]
  }

  /** A rectangle of module values: rows of one positive length. */
  ghost predicate IsPattern(p: seq<seq<int>>)
  {
    |p| > 0 && |p[0]| > 0 && forall i :: 0 <= i < |p| ==> |p[i]| == |p[0]|
  }

  /** `setValue(curr_bit != 0, ...)`: a nonzero entry is stored as dark. */
  function ModuleByte(v: int): (r: uint8)
    ensures r != InvalidByteValue && (r == 1 <==> v != 0)
  {
    if v != 0 then 1 else 0
  }

  ghost predicate InGrid(width: int, height: int, x: int, y: int)
  {
    0 <= x < width && 0 <= y < height
  }

  /** The pattern laid with its top-left corner at (columnStart, rowStart)
      lies inside the matrix. */
  ghost predicate Fits(width: int, height: int, p: seq<seq<int>>, columnStart: int, rowStart: int)
    requires IsPattern(p)
  {
    0 <= columnStart && columnStart + |p[0]| <= width && 0 <= rowStart && rowStart + |p| <= height
  }

  ghost predicate InRect(p: seq<seq<int>>, columnStart: int, rowStart: int, x: int, y: int)
    requires IsPattern(p)
  {
    rowStart <= y < rowStart + |p| && columnStart <= x < columnStart + |p[0]|
  }

  /** Every cell the pattern would cover is still empty in g. */
  ghost predicate RegionEmpty(g: seq<seq<uint8>>, p: seq<seq<int>>, columnStart: int, rowStart: int)
    requires IsPattern(p)
  {
    forall y, x :: InRect(p, columnStart, rowStart, x, y) && 0 <= y < |g| && 0 <= x < |g[y]| ==>
      g[y][x] == InvalidByteValue
  }

  /** g shows the pattern at (columnStart, rowStart). */
  ghost predicate Holds(g: seq<seq<uint8>>, p: seq<seq<int>>, columnStart: int, rowStart: int)
    requires IsPattern(p)
  {
    forall y, x :: InRect(p, columnStart, rowStart, x, y) ==>
      0 <= y < |g| && 0 <= x < |g[y]| && g[y][x] == ModuleByte(p[y - rowStart][x - columnStart])
  }

  /** g' agrees with g on every cell that g has already set. */
  ghost predicate KeepsSet(g: seq<seq<uint8>>, g': seq<seq<uint8>>, width: int, height: int)
    requires IsGrid(g, width, height) && IsGrid(g', width, height)
  {
    forall y, x :: InGrid(width, height, x, y) && g[y][x] != InvalidByteValue ==> g'[y][x] == g[y][x]
  }

  lemma KeepsSetTrans(a: seq<seq<uint8>>, b: seq<seq<uint8>>, c: seq<seq<uint8>>, width: int, height: int)
    requires IsGrid(a, width, height) && IsGrid(b, width, height) && IsGrid(c, width, height)
    requires KeepsSet(a, b, width, height) && KeepsSet(b, c, width, height)
    ensures KeepsSet(a, c, width, height)
  {
  }

  /** A pattern shown in g is still shown after a step that keeps set cells. */
  lemma HoldsKept(g: seq<seq<uint8>>, g': seq<seq<uint8>>, width: int, height: int,
                  p: seq<seq<int>>, columnStart: int, rowStart: int)
    requires IsGrid(g, width, height) && IsGrid(g', width, height) && IsPattern(p)
    requires Holds(g, p, columnStart, rowStart) && KeepsSet(g, g', width, height)
    ensures Holds(g', p, columnStart, rowStart)
  {
    forall y, x | InRect(p, columnStart, rowStart, x, y)
      ensures 0 <= y < |g'| && 0 <= x < |g'[y]| && g'[y][x] == ModuleByte(p[y - rowStart][x - columnStart])
    {
      assert InGrid(width, height, x, y);
    }
  }

  /** Cell (x, y) comes before cell (column, row) of the pattern in the
      row-major order the placement loops visit. */
  ghost predicate Visited(columnStart: int, rowStart: int, columns: int, row: int, column: int, x: int, y: int)
  {
    (rowStart <= y < rowStart + row && columnStart <= x < columnStart + columns) ||
    (y == rowStart + row && columnStart <= x < columnStart + column)
  }

  /** `encodeFinderPattern`, `encodeSeparatorPattern` and
      `encodePositionAlignmentPattern` share this loop: visit the pattern's
      cells row by row, throw `Unspecified` on the first cell already set,
      otherwise store the module. The placement succeeds exactly when the
      whole region was empty; then the region shows the pattern. Nothing
      outside the region changes, and no set cell is overwritten. */
  method PlacePattern(m: ByteMatrix, p: seq<seq<int>>, columnStart: int, rowStart: int)
    returns (outcome: Outcome)
    requires m.Valid() && IsPattern(p) && Fits(m.width, m.height, p, columnStart, rowStart)
    modifies m
    ensures m.Valid()
    ensures outcome == Completed || outcome == Failed(Unspecified)
    ensures outcome == Completed <==> RegionEmpty(old(m.bytes), p, columnStart, rowStart)
    ensures outcome == Completed ==> Holds(m.bytes, p, columnStart, rowStart)
    ensures forall y, x :: InGrid(m.width, m.height, x, y) && !InRect(p, columnStart, rowStart, x, y) ==>
      m.bytes[y][x] == old(m.bytes)[y][x]
    ensures KeepsSet(old(m.bytes), m.bytes, m.width, m.height)
  {
    ghost var before := m.bytes;
    var columns := |p[0]|;
    var rowOffset := 0;
    while rowOffset < |p|
      invariant m.Valid() && 0 <= rowOffset <= |p|
      invariant forall y, x :: InGrid(m.width, m.height, x, y) ==>
        (Visited(columnStart, rowStart, columns, rowOffset, 0, x, y) ==>
           before[y][x] == InvalidByteValue && m.bytes[y][x] == ModuleByte(p[y - rowStart][x - columnStart])) &&
        (!Visited(columnStart, rowStart, columns, rowOffset, 0, x, y) ==> m.bytes[y][x] == before[y][x])
    {
      var colOffset := 0;
      while colOffset < columns
        invariant m.Valid() && 0 <= colOffset <= columns
        invariant forall y, x :: InGrid(m.width, m.height, x, y) ==>
          (Visited(columnStart, rowStart, columns, rowOffset, colOffset, x, y) ==>
             before[y][x] == InvalidByteValue && m.bytes[y][x] == ModuleByte(p[y - rowStart][x - columnStart])) &&
          (!Visited(columnStart, rowStart, columns, rowOffset, colOffset, x, y) ==> m.bytes[y][x] == before[y][x])
      {
        var column := columnStart + colOffset;
        var row := rowStart + rowOffset;
        if !m.IsEmpty(column, row) {
          assert !RegionEmpty(before, p, columnStart, rowStart) by {
            assert !Visited(columnStart, rowStart, columns, rowOffset, colOffset, column, row);
            assert before[rowStart + rowOffset][columnStart + colOffset] != InvalidByteValue;
          }
          return Failed(Unspecified);
        }
        m.SetBool(p[rowOffset][colOffset] != 0, column, row);
        colOffset := colOffset + 1;
      }
      rowOffset := rowOffset + 1;
    }
    assert RegionEmpty(before, p, columnStart, rowStart) by {
      forall y, x | InRect(p, columnStart, rowStart, x, y)
        ensures before[y][x] == InvalidByteValue
      {
        assert Visited(columnStart, rowStart, columns, |p|, 0, x, y);
      }
    }
    assert Holds(m.bytes, p, columnStart, rowStart) by {
      forall y, x | InRect(p, columnStart, rowStart, x, y)
        ensures m.bytes[y][x] == ModuleByte(p[y - rowStart][x - columnStart])
      {
        assert Visited(columnStart, rowStart, columns, |p|, 0, x, y);
      }
    }
    return Completed;
  }

  /** Where one corner of `encodeFinderPatterns` goes: the origin of its
      finder pattern and the origins of its horizontal and vertical
      separators. */
  datatype FinderCorner = FinderCorner(finderX: int, finderY: int,
                                       horizontalX: int, horizontalY: int,
                                       verticalX: int, verticalY: int)

  /** Top-left: origin (0, 0), the horizontal separator below the pattern
      and the vertical one to its right. */
  function TopLeftCorner(): FinderCorner
  {
    FinderCorner(0, 0, 0, 7, 7, 0)
  }

  /** Top-right: origin (width - 7, 0), the horizontal separator below the
      pattern and the vertical one to its left, both one column further left. */
  function TopRightCorner(width: int): FinderCorner
  {
    FinderCorner(width - 7, 0, width - 8, 7, width - 8, 0)
  }

  /** Bottom-left: origin (0, height - 7), the horizontal separator above
      the pattern and the vertical one to its right. */
  function BottomLeftCorner(height: int): FinderCorner
  {
    FinderCorner(0, height - 7, 0, height - 8, 7, height - 7)
  }

  /** The finder pattern and both separators of a corner lie in the matrix. */
  ghost predicate CornerFits(width: int, height: int, c: FinderCorner)
  {
    Fits(width, height, FinderPattern(), c.finderX, c.finderY) &&
    Fits(width, height, HorizontalSeparator(), c.horizontalX, c.horizontalY) &&
    Fits(width, height, VerticalSeparator(), c.verticalX, c.verticalY)
  }

  /** One corner of `encodeFinderPatterns`: the finder pattern, then its
      horizontal and its vertical separator, stopping at the first conflict. */
  method EncodeFinderCorner(m: ByteMatrix, c: FinderCorner) returns (outcome: Outcome)
    requires m.Valid() && CornerFits(m.width, m.height, c)
    modifies m
    ensures m.Valid()
    ensures outcome == Completed || outcome == Failed(Unspecified)
    ensures outcome == Completed ==> CornerHolds(m.bytes, c)
    ensures CornerFrame(old(m.bytes), m.bytes, m.width, m.height, c)
    ensures KeepsSet(old(m.bytes), m.bytes, m.width, m.height)
  {
    ghost var g0 := m.bytes;
    outcome := PlacePattern(m, FinderPattern(), c.finderX, c.finderY);
    if outcome != Completed { return; }
    ghost var g1 := m.bytes;
    outcome := PlacePattern(m, HorizontalSeparator(), c.horizontalX, c.horizontalY);
    if outcome != Completed {
      KeepsSetTrans(g0, g1, m.bytes, m.width, m.height);
      return;
    }
    ghost var g2 := m.bytes;
    outcome := PlacePattern(m, VerticalSeparator(), c.verticalX, c.verticalY);
    KeepsSetTrans(g1, g2, m.bytes, m.width, m.height);
    KeepsSetTrans(g0, g1, m.bytes, m.width, m.height);
    if outcome == Completed {
      HoldsKept(g1, m.bytes, m.width, m.height, FinderPattern(), c.finderX, c.finderY);
      HoldsKept(g2, m.bytes, m.width, m.height, HorizontalSeparator(), c.horizontalX, c.horizontalY);
      assert CornerHolds(m.bytes, c);
    }
  }

  /** A corner shows its finder pattern and both separators. */
  ghost predicate CornerHolds(g: seq<seq<uint8>>, c: FinderCorner)
  {
    Holds(g, FinderPattern(), c.finderX, c.finderY) &&
    Holds(g, HorizontalSeparator(), c.horizontalX, c.horizontalY) &&
    Holds(g, VerticalSeparator(), c.verticalX, c.verticalY)
  }

  /** All three corners of a width x height matrix, at the origins
      `encodeFinderPatterns` uses. */
  ghost predicate FinderPatternsHold(g: seq<seq<uint8>>, width: int, height: int)
  {
    CornerHolds(g, TopLeftCorner()) &&
    CornerHolds(g, TopRightCorner(width)) &&
    CornerHolds(g, BottomLeftCorner(height))
  }

  /** g' differs from g only inside the three rectangles of one corner. */
  ghost predicate CornerFrame(g: seq<seq<uint8>>, g': seq<seq<uint8>>, width: int, height: int, c: FinderCorner)
    requires IsGrid(g, width, height) && IsGrid(g', width, height)
  {
    forall y, x :: InGrid(width, height, x, y) ==>
      InRect(FinderPattern(), c.finderX, c.finderY, x, y) ||
      InRect(HorizontalSeparator(), c.horizontalX, c.horizontalY, x, y) ||
      InRect(VerticalSeparator(), c.verticalX, c.verticalY, x, y) ||
      g'[y][x] == g[y][x]
  }

  /** The region of the three finder corners, separators included. */
  ghost predicate FinderArea(width: int, height: int, x: int, y: int)
  {
    (x < 8 && y < 8) || (x >= width - 8 && y < 8) || (x < 8 && y >= height - 8)
  }

  /** Cells outside the finder corners agree in g and g'. */
  ghost predicate OutsideFinderUnchanged(g: seq<seq<uint8>>, g': seq<seq<uint8>>, width: int, height: int)
    requires IsGrid(g, width, height) && IsGrid(g', width, height)
  {
    forall y, x :: InGrid(width, height, x, y) && !FinderArea(width, height, x, y) ==> g'[y][x] == g[y][x]
  }

  /** Up to three corner steps change nothing outside the finder corners. */
  lemma CornerFramesCompose(g0: seq<seq<uint8>>, g1: seq<seq<uint8>>, g2: seq<seq<uint8>>,
                            g3: seq<seq<uint8>>, width: int, height: int)
    requires IsGrid(g0, width, height) && IsGrid(g1, width, height)
    requires IsGrid(g2, width, height) && IsGrid(g3, width, height)
    requires CornerFrame(g0, g1, width, height, TopLeftCorner())
    requires g1 == g2 || CornerFrame(g1, g2, width, height, TopRightCorner(width))
    requires g2 == g3 || CornerFrame(g2, g3, width, height, BottomLeftCorner(height))
    ensures OutsideFinderUnchanged(g0, g3, width, height)
  {
  }

  /** The three corners placed one after another all still show. */
  lemma CornersKept(g1: seq<seq<uint8>>, g2: seq<seq<uint8>>, g3: seq<seq<uint8>>, width: int, height: int)
    requires IsGrid(g1, width, height) && IsGrid(g2, width, height) && IsGrid(g3, width, height)
    requires KeepsSet(g1, g2, width, height) && KeepsSet(g2, g3, width, height)
    requires CornerHolds(g1, TopLeftCorner())
    requires CornerHolds(g2, TopRightCorner(width))
    requires CornerHolds(g3, BottomLeftCorner(height))
    ensures FinderPatternsHold(g3, width, height)
  {
    KeepsSetTrans(g1, g2, g3, width, height);
    CornerKept(g1, g3, width, height, TopLeftCorner());
    CornerKept(g2, g3, width, height, TopRightCorner(width));
  }

  /** `encodeFinderPatterns`: a finder pattern in the top-left, top-right and
      bottom-left corners, each with a light separator below or above it and
      one beside it, stopping at the first conflict. Smaller matrices trap on
      the cell indices. On success all nine regions show their patterns;
      cells outside the corners never change. */
  method EncodeFinderPatterns(m: ByteMatrix) returns (outcome: Outcome)
    requires m.Valid() && m.width >= 8 && m.height >= 8
    modifies m
    ensures m.Valid()
    ensures outcome == Completed || outcome == Failed(Unspecified)
    ensures outcome == Completed ==> FinderPatternsHold(m.bytes, m.width, m.height)
    ensures OutsideFinderUnchanged(old(m.bytes), m.bytes, m.width, m.height)
    ensures KeepsSet(old(m.bytes), m.bytes, m.width, m.height)
  {
    ghost var g0 := m.bytes;
    outcome := EncodeFinderCorner(m, TopLeftCorner());
    ghost var g1 := m.bytes;
    if outcome != Completed {
      CornerFramesCompose(g0, g1, g1, g1, m.width, m.height);
      return;
    }
    outcome := EncodeFinderCorner(m, TopRightCorner(m.width));
    ghost var g2 := m.bytes;
    KeepsSetTrans(g0, g1, g2, m.width, m.height);
    if outcome != Completed {
      CornerFramesCompose(g0, g1, g2, g2, m.width, m.height);
      return;
    }
    outcome := EncodeFinderCorner(m, BottomLeftCorner(m.height));
    CornerFramesCompose(g0, g1, g2, m.bytes, m.width, m.height);
    KeepsSetTrans(g0, g2, m.bytes, m.width, m.height);
    if outcome == Completed {
      CornersKept(g1, g2, m.bytes, m.width, m.height);
    }
  }

  lemma CornerKept(g: seq<seq<uint8>>, g': seq<seq<uint8>>, width: int, height: int, c: FinderCorner)
    requires IsGrid(g, width, height) && IsGrid(g', width, height) && KeepsSet(g, g', width, height)
    requires CornerHolds(g, c)
    ensures CornerHolds(g', c)
  {
    HoldsKept(g, g', width, height, FinderPattern(), c.finderX, c.finderY);
    HoldsKept(g, g', width, height, HorizontalSeparator(), c.horizontalX, c.horizontalY);
    HoldsKept(g, g', width, height, VerticalSeparator(), c.verticalX, c.verticalY);
  }

  /** `encodeDarkModule`: the module at `DarkModulePosition`, column 8 and
      row height - 8, becomes dark; it throws `Unspecified`, changing
      nothing, when that cell is already set. */
  method EncodeDarkModule(m: ByteMatrix) returns (outcome: Outcome)
    requires m.Valid() && m.width >= 9 && m.height >= 8
    modifies m
    ensures m.Valid()
    ensures outcome == Completed || outcome == Failed(Unspecified)
    ensures outcome == Completed <==> old(m.bytes)[m.height - 8][8] == InvalidByteValue
    ensures outcome == Completed ==> m.bytes == old(m.bytes)[m.height - 8 := old(m.bytes)[m.height - 8][8 := 1]]
    ensures outcome != Completed ==> m.bytes == old(m.bytes)
    ensures KeepsSet(old(m.bytes), m.bytes, m.width, m.height)
  {
    var column, row := 8, m.height - 8;
    if !m.IsEmpty(column, row) {
      return Failed(Unspecified);
    }
    m.SetBool(true, column, row);
    return Completed;
  }

  /** `PositionAlignmentPatternPositions`: the row and column coordinates of
      the alignment pattern centres of versions 1 to 40 (ISO 18004 Annex E);
      a missing key is `None`. From version 2 on, the list starts at 6, ends
      7 modules before the far edge of the 17 + 4n module symbol, holds
      n / 7 + 2 strictly increasing entries (AlignmentPositionsShape). */
  function AlignmentPositions(versionNumber: int): (r: Option<seq<int>>)
    ensures r.Some? <==> 1 <= versionNumber <= 40
    ensures versionNumber == 1 ==> r == Some([])
  {
    match versionNumber
      case 1 => Some([])
      case 2 => Some([6, 18])
      case 3 => Some([6, 22])
      case 4 => Some([6, 26])
      case 5 => Some([6, 30])
      case 6 => Some([6, 34])
      case 7 => Some([6, 22, 38])
      case 8 => Some([6, 24, 42])
      case 9 => Some([6, 26, 46])
      case 10 => Some([6, 28, 50])
      case 11 => Some([6, 30, 54])
      case 12 => Some([6, 32, 58])
      case 13 => Some([6, 34, 62])
      case 14 => Some([6, 26, 46, 66])
      case 15 => Some([6, 26, 48, 70])
      case 16 => Some([6, 26, 50, 74])
      case 17 => Some([6, 30, 54, 78])
      case 18 => Some([6, 30, 56, 82])
      case 19 => Some([6, 30, 58, 86])
      case 20 => Some([6, 34, 62, 90])
      case 21 => Some([6, 28, 50, 72, 94])
      case 22 => Some([6, 26, 50, 74, 98])
      case 23 => Some([6, 30, 54, 78, 102])
      case 24 => Some([6, 28, 54, 80, 106])
      case 25 => Some([6, 32, 58, 84, 110])
      case 26 => Some([6, 30, 58, 86, 114])
      case 27 => Some([6, 34, 62, 90, 118])
      case 28 => Some([6, 26, 50, 74, 98, 122])
      case 29 => Some([6, 30, 54, 78, 102, 126])
      case 30 => Some([6, 26, 52, 78, 104, 130])
      case 31 => Some([6, 30, 56, 82, 108, 134])
      case 32 => Some([6, 34, 60, 86, 112, 138])
      case 33 => Some([6, 30, 58, 86, 114, 142])
      case 34 => Some([6, 34, 62, 90, 118, 146])
      case 35 => Some([6, 30, 54, 78, 102, 126, 150])
      case 36 => Some([6, 24, 50, 76, 102, 128, 154])
      case 37 => Some([6, 28, 54, 80, 106, 132, 158])
      case 38 => Some([6, 32, 58, 84, 110, 136, 162])
      case 39 => Some([6, 26, 54, 82, 110, 138, 166])
      case 40 => Some([6, 30, 58, 86, 114, 142, 170])
      case _ => None
  }

  /** The layout ISO 18004 Annex E prescribes for the centre coordinates
      of version n: n / 7 + 2 increasing entries from 6 to 17 + 4n - 7,
      each more than four past the one before, so that the 5x5 patterns
      around different centres never overlap. */
  ghost predicate AnnexShape(ps: seq<int>, versionNumber: int)
  {
    |ps| >= 2 && |ps| == versionNumber / 7 + 2 && ps[0] == 6 && ps[|ps| - 1] == 17 + 4 * versionNumber - 7 &&
    forall a :: 0 <= a < |ps| - 1 ==> ps[a] + 4 < ps[a + 1]
  }

  /** Any two centre coordinates are more than four apart. */
  ghost predicate CentresApart(ps: seq<int>)
  {
    forall i, j :: 0 <= i < j < |ps| ==> ps[i] + 4 < ps[j]
  }

  lemma {:induction false} AdjacentApart(ps: seq<int>, i: int, j: int)
    requires forall a :: 0 <= a < |ps| - 1 ==> ps[a] + 4 < ps[a + 1]
    requires 0 <= i < j < |ps|
    ensures ps[i] + 4 < ps[j]
    decreases j - i
  {
    if i + 1 < j {
      AdjacentApart(ps, i + 1, j);
    }
  }

  /** The centres of every version are pairwise apart. */
  lemma AlignmentPositionsApart(versionNumber: int)
    requires AlignmentPositions(versionNumber).Some?
    ensures CentresApart(AlignmentPositions(versionNumber).value)
  {
    var ps := AlignmentPositions(versionNumber).value;
    if versionNumber >= 2 {
      AlignmentPositionsShape(versionNumber);
      forall i, j | 0 <= i < j < |ps|
        ensures ps[i] + 4 < ps[j]
      {
        AdjacentApart(ps, i, j);
      }
    }
  }

  lemma AlignmentPositionsShape(versionNumber: int)
    requires 2 <= versionNumber <= 40
    ensures AnnexShape(AlignmentPositions(versionNumber).value, versionNumber)
  {
    if versionNumber <= 10 {
      ShapeFrom2(versionNumber);
    } else if versionNumber <= 20 {
      ShapeFrom11(versionNumber);
    } else if versionNumber <= 30 {
      ShapeFrom21(versionNumber);
    } else {
      ShapeFrom31(versionNumber);
    }
  }

  lemma ShapeFrom2(versionNumber: int)
    requires 2 <= versionNumber <= 10
    ensures AnnexShape(AlignmentPositions(versionNumber).value, versionNumber)
  {
    match versionNumber
      case 2 => assert AnnexShape(AlignmentPositions(2).value, 2);
      case 3 => assert AnnexShape(AlignmentPositions(3).value, 3);
      case 4 => assert AnnexShape(AlignmentPositions(4).value, 4);
      case 5 => assert AnnexShape(AlignmentPositions(5).value, 5);
      case 6 => assert AnnexShape(AlignmentPositions(6).value, 6);
      case 7 => assert AnnexShape(AlignmentPositions(7).value, 7);
      case 8 => assert AnnexShape(AlignmentPositions(8).value, 8);
      case 9 => assert AnnexShape(AlignmentPositions(9).value, 9);
      case 10 => assert AnnexShape(AlignmentPositions(10).value, 10);
  }

  lemma ShapeFrom11(versionNumber: int)
    requires 11 <= versionNumber <= 20
    ensures AnnexShape(AlignmentPositions(versionNumber).value, versionNumber)
  {
    match versionNumber
      case 11 => assert AnnexShape(AlignmentPositions(11).value, 11);
      case 12 => assert AnnexShape(AlignmentPositions(12).value, 12);
      case 13 => assert AnnexShape(AlignmentPositions(13).value, 13);
      case 14 => assert AnnexShape(AlignmentPositions(14).value, 14);
      case 15 => assert AnnexShape(AlignmentPositions(15).value, 15);
      case 16 => assert AnnexShape(AlignmentPositions(16).value, 16);
      case 17 => assert AnnexShape(AlignmentPositions(17).value, 17);
      case 18 => assert AnnexShape(AlignmentPositions(18).value, 18);
      case 19 => assert AnnexShape(AlignmentPositions(19).value, 19);
      case 20 => assert AnnexShape(AlignmentPositions(20).value, 20);
  }

  lemma ShapeFrom21(versionNumber: int)
    requires 21 <= versionNumber <= 30
    ensures AnnexShape(AlignmentPositions(versionNumber).value, versionNumber)
  {
    match versionNumber
      case 21 => assert AnnexShape(AlignmentPositions(21).value, 21);
      case 22 => assert AnnexShape(AlignmentPositions(22).value, 22);
      case 23 => assert AnnexShape(AlignmentPositions(23).value, 23);
      case 24 => assert AnnexShape(AlignmentPositions(24).value, 24);
      case 25 => assert AnnexShape(AlignmentPositions(25).value, 25);
      case 26 => assert AnnexShape(AlignmentPositions(26).value, 26);
      case 27 => assert AnnexShape(AlignmentPositions(27).value, 27);
      case 28 => assert AnnexShape(AlignmentPositions(28).value, 28);
      case 29 => assert AnnexShape(AlignmentPositions(29).value, 29);
      case 30 => assert AnnexShape(AlignmentPositions(30).value, 30);
  }

  lemma ShapeFrom31(versionNumber: int)
    requires 31 <= versionNumber <= 40
    ensures AnnexShape(AlignmentPositions(versionNumber).value, versionNumber)
  {
    match versionNumber
      case 31 => assert AnnexShape(AlignmentPositions(31).value, 31);
      case 32 => assert AnnexShape(AlignmentPositions(32).value, 32);
      case 33 => assert AnnexShape(AlignmentPositions(33).value, 33);
      case 34 => assert AnnexShape(AlignmentPositions(34).value, 34);
      case 35 => assert AnnexShape(AlignmentPositions(35).value, 35);
      case 36 => assert AnnexShape(AlignmentPositions(36).value, 36);
      case 37 => assert AnnexShape(AlignmentPositions(37).value, 37);
      case 38 => assert AnnexShape(AlignmentPositions(38).value, 38);
      case 39 => assert AnnexShape(AlignmentPositions(39).value, 39);
      case 40 => assert AnnexShape(AlignmentPositions(40).value, 40);
  }

  /** Every alignment pattern around a centre from `positions` lies inside the matrix. */
  ghost predicate CentresFit(positions: seq<int>, width: int, height: int)
  {
    forall a :: 0 <= a < |positions| ==> 2 <= positions[a] && positions[a] + 3 <= width && positions[a] + 3 <= height
  }

  /** (x, y) lies in the 5x5 square around some centre (column, row) with
      both coordinates in `positions`. */
  ghost predicate NearCentre(positions: seq<int>, x: int, y: int)
  {
    exists a, b :: 0 <= a < |positions| && 0 <= b < |positions| &&
      positions[a] - 2 <= y <= positions[a] + 2 && positions[b] - 2 <= x <= positions[b] + 2
  }

  /** `encodePositionAlignmentPatterns`: nothing for version 1; for a
      version missing from the table it throws `Unspecified`; otherwise an
      alignment pattern centred on every (column, row) pair of table
      entries whose centre is still empty, skipping the centres a finder
      pattern already covers, and throwing `Unspecified` on an overlap. On
      success every centre is set. Cells away from the centres never change,
      and no set cell is overwritten. */
  method EncodePositionAlignmentPatterns(m: ByteMatrix, version: QRVersions.Version) returns (outcome: Outcome)
    requires m.Valid()
    requires QRVersions.SupportsPositionAlignment(version) && AlignmentPositions(version.versionNumber).Some? ==>
      CentresFit(AlignmentPositions(version.versionNumber).value, m.width, m.height)
    modifies m
    ensures m.Valid()
    ensures outcome == Completed || outcome == Failed(Unspecified)
    ensures !QRVersions.SupportsPositionAlignment(version) ==> outcome == Completed && m.bytes == old(m.bytes)
    ensures QRVersions.SupportsPositionAlignment(version) && AlignmentPositions(version.versionNumber).None? ==>
      outcome == Failed(Unspecified) && m.bytes == old(m.bytes)
    ensures QRVersions.SupportsPositionAlignment(version) && AlignmentPositions(version.versionNumber).Some? ==>
      var ps := AlignmentPositions(version.versionNumber).value;
      (outcome == Completed ==> CentresSet(m.bytes, ps, |ps|)) &&
      (outcome == Completed ==> PatternsAtEmptyCentres(old(m.bytes), m.bytes, ps, |ps|)) &&
      OutsideCentresUnchanged(old(m.bytes), m.bytes, m.width, m.height, ps)
    ensures KeepsSet(old(m.bytes), m.bytes, m.width, m.height)
  {
    if !QRVersions.SupportsPositionAlignment(version) {
      return Completed;
    }
    var found := AlignmentPositions(version.versionNumber);
    if found.None? {
      return Failed(Unspecified);
    }
    var ps := found.value;
    AlignmentPositionsApart(version.versionNumber);
    ghost var before := m.bytes;
    var a := 0;
    while a < |ps|
      invariant m.Valid() && 0 <= a <= |ps|
      invariant KeepsSet(before, m.bytes, m.width, m.height)
      invariant OutsideCentresUnchanged(before, m.bytes, m.width, m.height, ps)
      invariant CentresSet(m.bytes, ps, a)
      invariant PatternsAtEmptyCentres(before, m.bytes, ps, a)
      invariant forall a', b :: a <= a' < |ps| && 0 <= b < |ps| ==> m.bytes[ps[a']][ps[b]] == before[ps[a']][ps[b]]
    {
      ghost var g := m.bytes;
      outcome := AlignmentRow(m, ps, a);
      KeepsSetTrans(before, g, m.bytes, m.width, m.height);
      if outcome != Completed {
        return;
      }
      PatternsKept(before, g, m.bytes, m.width, m.height, ps, a);
      forall a', b | a + 1 <= a' < |ps| && 0 <= b < |ps|
        ensures m.bytes[ps[a']][ps[b]] == before[ps[a']][ps[b]]
      {
        assert ps[a] + 4 < ps[a'];
        assert InGrid(m.width, m.height, ps[b], ps[a']);
      }
      a := a + 1;
    }
    return Completed;
  }

  /** In the first `rows` rows of the centre grid, every centre that was
      empty in g has an alignment pattern around it in g'. */
  ghost predicate PatternsAtEmptyCentres(g: seq<seq<uint8>>, g': seq<seq<uint8>>, ps: seq<int>, rows: int)
  {
    forall a, b ::
      (0 <= a < rows && a < |ps| && 0 <= b < |ps| &&
       0 <= ps[a] < |g| && 0 <= ps[b] < |g[ps[a]]| && g[ps[a]][ps[b]] == InvalidByteValue) ==>
      Holds(g', AlignmentPattern(), ps[b] - 2, ps[a] - 2)
  }

  /** The centres in the first `rows` rows of the centre grid are set. */
  ghost predicate CentresSet(g: seq<seq<uint8>>, ps: seq<int>, rows: int)
  {
    forall a, b :: 0 <= a < rows && a < |ps| && 0 <= b < |ps| ==>
      0 <= ps[a] < |g| && 0 <= ps[b] < |g[ps[a]]| && g[ps[a]][ps[b]] != InvalidByteValue
  }

  /** g and g' agree away from the centres. */
  ghost predicate OutsideCentresUnchanged(g: seq<seq<uint8>>, g': seq<seq<uint8>>, width: int, height: int, ps: seq<int>)
    requires IsGrid(g, width, height) && IsGrid(g', width, height)
  {
    forall y, x :: InGrid(width, height, x, y) && !NearCentre(ps, x, y) ==> g'[y][x] == g[y][x]
  }

  /** One pass of the outer loop of `encodePositionAlignmentPatterns`: the
      patterns centred in row ps[a]. Completes exactly when no placement
      conflicts; then the row's centres are set as well. */
  method AlignmentRow(m: ByteMatrix, ps: seq<int>, a: int) returns (outcome: Outcome)
    requires m.Valid() && CentresFit(ps, m.width, m.height) && 0 <= a < |ps|
    requires CentresSet(m.bytes, ps, a)
    modifies m
    ensures m.Valid()
    ensures outcome == Completed || outcome == Failed(Unspecified)
    ensures outcome == Completed ==> CentresSet(m.bytes, ps, a + 1)
    ensures CentresApart(ps) && outcome == Completed ==>
      forall b :: 0 <= b < |ps| && old(m.bytes)[ps[a]][ps[b]] == InvalidByteValue ==>
        Holds(m.bytes, AlignmentPattern(), ps[b] - 2, ps[a] - 2)
    ensures forall y, x :: InGrid(m.width, m.height, x, y) && (y < ps[a] - 2 || ps[a] + 2 < y) ==>
      m.bytes[y][x] == old(m.bytes)[y][x]
    ensures OutsideCentresUnchanged(old(m.bytes), m.bytes, m.width, m.height, ps)
    ensures KeepsSet(old(m.bytes), m.bytes, m.width, m.height)
  {
    ghost var before := m.bytes;
    var b := 0;
    while b < |ps|
      invariant m.Valid() && 0 <= b <= |ps| && RowProgress(before, m.bytes, m.width, m.height, ps, a, b, AlignmentPattern())
    {
      outcome := AlignmentAt(m, ps, a, b, before);
      if outcome != Completed {
        return;
      }
      b := b + 1;
    }
    CentresSetStep(m.bytes, ps, a);
    return Completed;
  }

  lemma CentresSetStep(g: seq<seq<uint8>>, ps: seq<int>, a: int)
    requires 0 <= a < |ps| && CentresSet(g, ps, a)
    requires forall b :: 0 <= b < |ps| ==> 0 <= ps[a] < |g| && 0 <= ps[b] < |g[ps[a]]| && g[ps[a]][ps[b]] != InvalidByteValue
    ensures CentresSet(g, ps, a + 1)
  {
  }

  /** What the row pass at row ps[a] has changed by the time it reaches
      column index b: set cells kept, nothing changed away from the centres
      or more than two rows from ps[a]. */
  ghost predicate RowFrame(before: seq<seq<uint8>>, g: seq<seq<uint8>>, width: int, height: int, ps: seq<int>,
                           a: int)
  {
    IsGrid(before, width, height) && IsGrid(g, width, height) && 0 <= a < |ps| &&
    KeepsSet(before, g, width, height) && OutsideCentresUnchanged(before, g, width, height, ps) &&
    forall y, x :: InGrid(width, height, x, y) && (y < ps[a] - 2 || ps[a] + 2 < y) ==> g[y][x] == before[y][x]
  }

  /** The state of the inner loop of `encodePositionAlignmentPatterns`
      before column index b of row ps[a]: the frame, every centre of the
      earlier rows and of the first b columns set, and, when the centres are
      apart, a pattern around each visited centre that was empty and the
      later centres of the row untouched. */
  ghost predicate RowProgress(before: seq<seq<uint8>>, g: seq<seq<uint8>>, width: int, height: int, ps: seq<int>,
                              a: int, b: int, p: seq<seq<int>>)
    requires IsPattern(p)
  {
    RowFrame(before, g, width, height, ps, a) && CentresFit(ps, width, height) && 0 <= b <= |ps| &&
    CentresSet(g, ps, a) &&
    (forall b' :: 0 <= b' < b ==> g[ps[a]][ps[b']] != InvalidByteValue) &&
    (CentresApart(ps) ==> forall b' :: b <= b' < |ps| ==> g[ps[a]][ps[b']] == before[ps[a]][ps[b']]) &&
    (CentresApart(ps) ==> forall b' :: 0 <= b' < b && before[ps[a]][ps[b']] == InvalidByteValue ==>
       Holds(g, p, ps[b'] - 2, ps[a] - 2))
  }

  /** One pass of the inner loop: skip a centre already set, otherwise
      place the pattern around it. The row-pass predicates are compared
      with `== true` here and in the lemmas below so that each is checked
      as one fact rather than conjunct by conjunct. */
  method AlignmentAt(m: ByteMatrix, ps: seq<int>, a: int, b: int, ghost before: seq<seq<uint8>>)
    returns (outcome: Outcome)
    requires m.Valid() && (RowProgress(before, m.bytes, m.width, m.height, ps, a, b, AlignmentPattern()) == true) && b < |ps|
    modifies m
    ensures m.Valid() && (RowFrame(before, m.bytes, m.width, m.height, ps, a) == true)
    ensures outcome == Completed || outcome == Failed(Unspecified)
    ensures outcome == Completed ==> (RowProgress(before, m.bytes, m.width, m.height, ps, a, b + 1, AlignmentPattern()) == true)
  {
    var row, column := ps[a], ps[b];
    var p := AlignmentPattern();
    if !m.IsEmpty(column, row) {
      RowSkip(before, m.bytes, m.width, m.height, ps, a, b, p);
      return Completed;
    }
    ghost var g := m.bytes;
    outcome := PlacePattern(m, p, column - 2, row - 2);
    RowPlaced(before, g, m.bytes, m.width, m.height, ps, a, b, p);
    if outcome == Completed {
      RowAdvanced(before, g, m.bytes, m.width, m.height, ps, a, b, p);
    }
  }

  /** Skipping a centre already set moves the row pass on. */
  lemma RowSkip(before: seq<seq<uint8>>, g: seq<seq<uint8>>, width: int, height: int, ps: seq<int>, a: int, b: int,
                  p: seq<seq<int>>)
    requires IsPattern(p) && (RowProgress(before, g, width, height, ps, a, b, p) == true) && b < |ps| && g[ps[a]][ps[b]] != InvalidByteValue
    ensures RowProgress(before, g, width, height, ps, a, b + 1, p) == true
  {
  }

  /** Placing the pattern around centre (ps[b], ps[a]) keeps the frame of
      the row pass. */
  lemma RowPlaced(before: seq<seq<uint8>>, g: seq<seq<uint8>>, g': seq<seq<uint8>>, width: int, height: int,
                  ps: seq<int>, a: int, b: int, p: seq<seq<int>>)
    requires IsPattern(p) && |p| == 5 && |p[0]| == 5
    requires (RowProgress(before, g, width, height, ps, a, b, p) == true) && b < |ps| && IsGrid(g', width, height)
    requires KeepsSet(g, g', width, height)
    requires forall y, x :: InGrid(width, height, x, y) && !InRect(p, ps[b] - 2, ps[a] - 2, x, y) ==>
      g'[y][x] == g[y][x]
    ensures RowFrame(before, g', width, height, ps, a) == true
  {
    var row := ps[a];
    KeepsSetTrans(before, g, g', width, height);
    forall y, x | InGrid(width, height, x, y) && !NearCentre(ps, x, y)
      ensures g'[y][x] == before[y][x]
    {
      assert !InRect(p, ps[b] - 2, row - 2, x, y);
    }
    forall y, x | InGrid(width, height, x, y) && (y < row - 2 || row + 2 < y)
      ensures g'[y][x] == before[y][x]
    {
      assert !InRect(p, ps[b] - 2, row - 2, x, y);
    }
  }

  /** A pattern placed in full around centre (ps[b], ps[a]) moves the row
      pass on. */
  lemma RowAdvanced(before: seq<seq<uint8>>, g: seq<seq<uint8>>, g': seq<seq<uint8>>, width: int, height: int,
                    ps: seq<int>, a: int, b: int, p: seq<seq<int>>)
    requires IsPattern(p) && |p| == 5 && |p[0]| == 5
    requires (RowProgress(before, g, width, height, ps, a, b, p) == true) && b < |ps| && (RowFrame(before, g', width, height, ps, a) == true)
    requires KeepsSet(g, g', width, height)
    requires forall y, x :: InGrid(width, height, x, y) && !InRect(p, ps[b] - 2, ps[a] - 2, x, y) ==>
      g'[y][x] == g[y][x]
    requires Holds(g', p, ps[b] - 2, ps[a] - 2)
    ensures RowProgress(before, g', width, height, ps, a, b + 1, p) == true
  {
    var row := ps[a];
    SetCentresKept(g, g', width, height, ps, a, b, p);
    if CentresApart(ps) {
      AlignmentStep(g, g', width, height, ps, before, row, b, p);
    }
  }

  /** Under a change that keeps set cells, the centres of the earlier rows
      and the first b centres of row ps[a] stay set, and the pattern just
      placed sets centre b as well. */
  lemma SetCentresKept(g: seq<seq<uint8>>, g': seq<seq<uint8>>, width: int, height: int, ps: seq<int>, a: int, b: int,
                       p: seq<seq<int>>)
    requires IsPattern(p) && |p| == 5 && |p[0]| == 5
    requires IsGrid(g, width, height) && IsGrid(g', width, height) && KeepsSet(g, g', width, height)
    requires CentresFit(ps, width, height) && 0 <= a < |ps| && 0 <= b < |ps| && CentresSet(g, ps, a)
    requires forall b' :: 0 <= b' < b ==> g[ps[a]][ps[b']] != InvalidByteValue
    requires Holds(g', p, ps[b] - 2, ps[a] - 2)
    ensures CentresSet(g', ps, a)
    ensures forall b' :: 0 <= b' < b + 1 ==> g'[ps[a]][ps[b']] != InvalidByteValue
  {
    assert InRect(p, ps[b] - 2, ps[a] - 2, ps[b], ps[a]);
    forall a', b' | 0 <= a' < a && 0 <= b' < |ps|
      ensures g'[ps[a']][ps[b']] != InvalidByteValue
    {
      assert InGrid(width, height, ps[b'], ps[a']);
    }
    forall b' | 0 <= b' < b
      ensures g'[ps[a]][ps[b']] != InvalidByteValue
    {
      assert InGrid(width, height, ps[b'], ps[a]);
    }
  }

  /** Placing the pattern around centre (ps[b], row) keeps the patterns
      already placed in that row, and leaves the later centres of the row
      as they were. */
  lemma AlignmentStep(g: seq<seq<uint8>>, g': seq<seq<uint8>>, width: int, height: int, ps: seq<int>,
                      before: seq<seq<uint8>>, row: int, b: int, p: seq<seq<int>>)
    requires IsPattern(p) && |p| == 5 && |p[0]| == 5
    requires IsGrid(before, width, height) && IsGrid(g, width, height) && IsGrid(g', width, height)
    requires CentresApart(ps) && 0 <= b < |ps| && CentresFit(ps, width, height) && 2 <= row && row + 3 <= height
    requires KeepsSet(g, g', width, height) && Holds(g', p, ps[b] - 2, row - 2)
    requires forall y, x :: InGrid(width, height, x, y) && !InRect(p, ps[b] - 2, row - 2, x, y) ==>
      g'[y][x] == g[y][x]
    requires forall b' :: 0 <= b' < b && before[row][ps[b']] == InvalidByteValue ==>
      Holds(g, p, ps[b'] - 2, row - 2)
    ensures forall b' :: 0 <= b' <= b && before[row][ps[b']] == InvalidByteValue ==>
      Holds(g', p, ps[b'] - 2, row - 2)
    ensures forall b' :: b < b' < |ps| ==> g'[row][ps[b']] == g[row][ps[b']]
  {
    forall b' | 0 <= b' < b && before[row][ps[b']] == InvalidByteValue
      ensures Holds(g', p, ps[b'] - 2, row - 2)
    {
      HoldsKept(g, g', width, height, p, ps[b'] - 2, row - 2);
    }
    forall b' | b < b' < |ps|
      ensures g'[row][ps[b']] == g[row][ps[b']]
    {
      assert InGrid(width, height, ps[b'], row);
    }
  }

  /** The patterns of the earlier rows survive a row that keeps set cells,
      and the row just placed adds its own. */
  lemma PatternsKept(before: seq<seq<uint8>>, g: seq<seq<uint8>>, g': seq<seq<uint8>>, width: int, height: int,
                     ps: seq<int>, a: int)
    requires IsGrid(before, width, height) && IsGrid(g, width, height) && IsGrid(g', width, height)
    requires 0 <= a < |ps| && KeepsSet(g, g', width, height)
    requires PatternsAtEmptyCentres(before, g, ps, a)
    requires forall b ::
      (0 <= b < |ps| && 0 <= ps[a] < height && 0 <= ps[b] < width && before[ps[a]][ps[b]] == InvalidByteValue) ==>
      Holds(g', AlignmentPattern(), ps[b] - 2, ps[a] - 2)
    ensures PatternsAtEmptyCentres(before, g', ps, a + 1)
  {
    forall a', b | 0 <= a' < a && 0 <= b < |ps| && 0 <= ps[a'] < |before| && 0 <= ps[b] < |before[ps[a']]| &&
      before[ps[a']][ps[b]] == InvalidByteValue
      ensures Holds(g', AlignmentPattern(), ps[b] - 2, ps[a'] - 2)
    {
      HoldsKept(g, g', width, height, AlignmentPattern(), ps[b] - 2, ps[a'] - 2);
    }
  }

  /** The module of timing position idx: `(idx + 1) % 2 != 0`, dark on even
      positions, so both timing lines start dark at position 8. */
  function TimingModule(idx: int): (r: uint8)
    ensures r == 0 || r == 1
    ensures idx >= 0 ==> (r == 1 <==> (idx + 1) % 2 != 0)
  {
    if idx % 2 == 0 then 1 else 0
  }

  /** (x, y) is on the horizontal timing line (row 6) or the vertical one
      (column 6), between the separators of a width-wide matrix. */
  ghost predicate OnTimingLine(width: int, x: int, y: int)
  {
    (y == TimingIndex && 8 <= x < width - 8) || (x == TimingIndex && 8 <= y < width - 8)
  }

  /** `encodeTimingPatterns`: for idx from 8 up to width - 9, module idx of
      row 6 and module idx of column 6 take the alternating timing value when
      still empty; set cells, and every other cell, stay as they were. A
      width below 16 traps on the range, and so do vertical positions beyond
      the matrix height. */
  method EncodeTimingPatterns(m: ByteMatrix)
    requires m.Valid() && m.width >= 16 && (m.width > 16 ==> m.height >= m.width - 8)
    modifies m
    ensures m.Valid()
    ensures forall y, x :: InGrid(m.width, m.height, x, y) ==>
      m.bytes[y][x] ==
        if OnTimingLine(m.width, x, y) && old(m.bytes)[y][x] == InvalidByteValue
        then TimingModule(if y == TimingIndex then x else y)
        else old(m.bytes)[y][x]
    ensures KeepsSet(old(m.bytes), m.bytes, m.width, m.height)
  {
    ghost var before := m.bytes;
    var idx := 8;
    while idx < m.width - 8
      invariant m.Valid() && 8 <= idx <= m.width - 8
      invariant forall y, x :: InGrid(m.width, m.height, x, y) ==>
        m.bytes[y][x] ==
          if OnTimingLine(idx + 8, x, y) && before[y][x] == InvalidByteValue
          then TimingModule(if y == TimingIndex then x else y)
          else before[y][x]
    {
      var bit := (idx + 1) % 2 != 0;
      // Horizontal line
      if m.IsEmpty(idx, TimingIndex) {
        m.SetBool(bit, idx, TimingIndex);
      }
      // Vertical line
      if m.IsEmpty(TimingIndex, idx) {
        m.SetBool(bit, TimingIndex, idx);
      }
      idx := idx + 1;
    }
  }

  /** The table here and the centres recorded in each ZXVersion agree. */
  lemma AlignmentPositionsAgree(versionNumber: int)
    requires 1 <= versionNumber <= 40
    ensures AlignmentPositions(versionNumber) == Some(QRVersions.VersionAt(versionNumber).alignmentPatternCenters)
  {
    if versionNumber <= 10 {
      AgreeFrom1(versionNumber);
    } else if versionNumber <= 20 {
      AgreeFrom11(versionNumber);
    } else if versionNumber <= 30 {
      AgreeFrom21(versionNumber);
    } else {
      AgreeFrom31(versionNumber);
    }
  }

  lemma AgreeFrom1(versionNumber: int)
    requires 1 <= versionNumber <= 10
    ensures AlignmentPositions(versionNumber) == Some(QRVersions.VersionAt(versionNumber).alignmentPatternCenters)
  {
    match versionNumber
      case 1 => assert QRVersions.VersionAt(1) == QRVersions.Version1();
      case 2 => assert QRVersions.VersionAt(2) == QRVersions.Version2();
      case 3 => assert QRVersions.VersionAt(3) == QRVersions.Version3();
      case 4 => assert QRVersions.VersionAt(4) == QRVersions.Version4();
      case 5 => assert QRVersions.VersionAt(5) == QRVersions.Version5();
      case 6 => assert QRVersions.VersionAt(6) == QRVersions.Version6();
      case 7 => assert QRVersions.VersionAt(7) == QRVersions.Version7();
      case 8 => assert QRVersions.VersionAt(8) == QRVersions.Version8();
      case 9 => assert QRVersions.VersionAt(9) == QRVersions.Version9();
      case 10 => assert QRVersions.VersionAt(10) == QRVersions.Version10();
  }

  lemma AgreeFrom11(versionNumber: int)
    requires 11 <= versionNumber <= 20
    ensures AlignmentPositions(versionNumber) == Some(QRVersions.VersionAt(versionNumber).alignmentPatternCenters)
  {
    match versionNumber
      case 11 => assert QRVersions.VersionAt(11) == QRVersions.Version11();
      case 12 => assert QRVersions.VersionAt(12) == QRVersions.Version12();
      case 13 => assert QRVersions.VersionAt(13) == QRVersions.Version13();
      case 14 => assert QRVersions.VersionAt(14) == QRVersions.Version14();
      case 15 => assert QRVersions.VersionAt(15) == QRVersions.Version15();
      case 16 => assert QRVersions.VersionAt(16) == QRVersions.Version16();
      case 17 => assert QRVersions.VersionAt(17) == QRVersions.Version17();
      case 18 => assert QRVersions.VersionAt(18) == QRVersions.Version18();
      case 19 => assert QRVersions.VersionAt(19) == QRVersions.Version19();
      case 20 => assert QRVersions.VersionAt(20) == QRVersions.Version20();
  }

  lemma AgreeFrom21(versionNumber: int)
    requires 21 <= versionNumber <= 30
    ensures AlignmentPositions(versionNumber) == Some(QRVersions.VersionAt(versionNumber).alignmentPatternCenters)
  {
    match versionNumber
      case 21 => assert QRVersions.VersionAt(21) == QRVersions.Version21();
      case 22 => assert QRVersions.VersionAt(22) == QRVersions.Version22();
      case 23 => assert QRVersions.VersionAt(23) == QRVersions.Version23();
      case 24 => assert QRVersions.VersionAt(24) == QRVersions.Version24();
      case 25 => assert QRVersions.VersionAt(25) == QRVersions.Version25();
      case 26 => assert QRVersions.VersionAt(26) == QRVersions.Version26();
      case 27 => assert QRVersions.VersionAt(27) == QRVersions.Version27();
      case 28 => assert QRVersions.VersionAt(28) == QRVersions.Version28();
      case 29 => assert QRVersions.VersionAt(29) == QRVersions.Version29();
      case 30 => assert QRVersions.VersionAt(30) == QRVersions.Version30();
  }

  lemma AgreeFrom31(versionNumber: int)
    requires 31 <= versionNumber <= 40
    ensures AlignmentPositions(versionNumber) == Some(QRVersions.VersionAt(versionNumber).alignmentPatternCenters)
  {
    match versionNumber
      case 31 => assert QRVersions.VersionAt(31) == QRVersions.Version31();
      case 32 => assert QRVersions.VersionAt(32) == QRVersions.Version32();
      case 33 => assert QRVersions.VersionAt(33) == QRVersions.Version33();
      case 34 => assert QRVersions.VersionAt(34) == QRVersions.Version34();
      case 35 => assert QRVersions.VersionAt(35) == QRVersions.Version35();
      case 36 => assert QRVersions.VersionAt(36) == QRVersions.Version36();
      case 37 => assert QRVersions.VersionAt(37) == QRVersions.Version37();
      case 38 => assert QRVersions.VersionAt(38) == QRVersions.Version38();
      case 39 => assert QRVersions.VersionAt(39) == QRVersions.Version39();
      case 40 => assert QRVersions.VersionAt(40) == QRVersions.Version40();
  }
}
