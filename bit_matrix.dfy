/** ZXBitMatrix.swift: a rendered 2D barcode, one bool per pixel (true is
    black), stored row by row in one flat array. */
module BitMatrices {
  import opened Errors
  import opened Bits

  /** The flat index of row r, column c in a matrix of the given width:
      r * width + c, written as repeated addition. */
  function Index(width: int, r: int, c: int): int
    decreases if r < 0 then -r else r
  {
    if r == 0 then c
    else if r > 0 then Index(width, r - 1, c) + width
    else Index(width, r + 1, c) - width
  }

  lemma {:induction false} IndexIsProduct(width: int, r: int, c: int)
    ensures Index(width, r, c) == r * width + c
    decreases if r < 0 then -r else r
  {
    if r > 0 {
      IndexIsProduct(width, r - 1, c);
    } else if r < 0 {
      IndexIsProduct(width, r + 1, c);
    }
  }

  /** Distinct cells have distinct flat indices: the cell is recovered by
      division. */
  lemma IndexCell(width: int, r: int, c: int)
    requires 0 < width && 0 <= c < width
    ensures Index(width, r, c) / width == r && Index(width, r, c) % width == c
  {
    IndexIsProduct(width, r, c);
    DivModUnique(Index(width, r, c), width, r, c);
  }

  /** Every flat index is the cell (index / width, index % width). */
  lemma CellOfIndex(width: int, i: int)
    requires 0 < width
    ensures Index(width, i / width, i % width) == i
  {
    IndexIsProduct(width, i / width, i % width);
  }

  /** The cells of one row have consecutive indices. */
  lemma RowIndices(width: int, r: int)
    ensures forall c :: Index(width, r, c) == Index(width, r, 0) + c
  {
    forall c
      ensures Index(width, r, c) == Index(width, r, 0) + c
    {
      IndexIsProduct(width, r, c);
      IndexIsProduct(width, r, 0);
    }
  }

  /** Cells of a `height` x `width` matrix have indices below width * height. */
  lemma IndexBounds(width: int, height: int, r: int, c: int)
    requires 0 < width && 0 <= r < height && 0 <= c < width
    ensures 0 <= Index(width, r, c) < width * height
  {
    IndexIsProduct(width, r, c);
    assert r * width <= (height - 1) * width;
  }

  /** The bit of cell (r, c) in a flat row-major array. */
  function CellOf(b: seq<bool>, width: int, height: int, r: int, c: int): bool
    requires 0 < width && |b| == width * height && 0 <= r < height && 0 <= c < width
  {
    IndexBounds(width, height, r, c);
    b[Index(width, r, c)]
  }

  /** The row of an index inside the array is a row of the matrix. */
  lemma RowBound(width: int, height: int, index: int)
    requires 0 < width && 0 <= index < width * height
    ensures 0 <= index / width < height
  {
    if index / width >= height {
      DivAtLeast(index, width, height);
    }
  }

  /** Two arrays of the same matrix shape that agree on every cell are
      equal: the cell view determines the array. */
  lemma CellsDetermine(a: seq<bool>, b: seq<bool>, width: int, height: int)
    requires 0 < width && |a| == width * height && |b| == width * height
    requires forall r, c :: 0 <= r < height && 0 <= c < width ==> CellOf(a, width, height, r, c) == CellOf(b, width, height, r, c)
    ensures a == b
  {
    forall i | 0 <= i < |a|
      ensures a[i] == b[i]
    {
      RowBound(width, height, i);
      CellOfIndex(width, i);
      assert CellOf(a, width, height, i / width, i % width) == CellOf(b, width, height, i / width, i % width);
    }
  }

  /** Writing one cell's flat index changes that cell and no other. */
  lemma WriteCell(b: seq<bool>, b': seq<bool>, width: int, height: int, v: bool, row: int, column: int)
    requires 0 < width && |b| == width * height
    requires 0 <= row < height && 0 <= column < width
    requires 0 <= Index(width, row, column) < |b| && b' == b[Index(width, row, column) := v]
    ensures forall r, c :: 0 <= r < height && 0 <= c < width ==>
      CellOf(b', width, height, r, c) == if r == row && c == column then v else CellOf(b, width, height, r, c)
  {
    forall r, c | 0 <= r < height && 0 <= c < width
      ensures CellOf(b', width, height, r, c) == if r == row && c == column then v else CellOf(b, width, height, r, c)
    {
      WriteCellAt(b, width, height, v, row, column, r, c);
    }
  }

  lemma WriteCellAt(b: seq<bool>, width: int, height: int, v: bool, row: int, column: int, r: int, c: int)
    requires 0 < width && |b| == width * height
    requires 0 <= row < height && 0 <= column < width && 0 <= r < height && 0 <= c < width
    ensures 0 <= Index(width, row, column) < |b|
    ensures CellOf(b[Index(width, row, column) := v], width, height, r, c) ==
      if r == row && c == column then v else CellOf(b, width, height, r, c)
  {
    IndexBounds(width, height, row, column);
    IndexBounds(width, height, r, c);
    IndexCell(width, r, c);
    IndexCell(width, row, column);
  }

  /** The cell (row, column) lies in the rectangle of the given corner and
      size. */
  predicate InRegion(left: int, top: int, regionWidth: int, regionHeight: int, row: int, column: int)
  {
    top <= row < top + regionHeight && left <= column < left + regionWidth
  }

  /** A position returned by `coordinates(index:)`. */
  datatype Position = Position(row: int, column: int)

  /** `ZXBitMatrix`. */
  class BitMatrix {
    const width: int
    const height: int
    var bits: seq<bool>

    /** Both dimensions are at least 1 and there is one bit per cell. */
    ghost predicate Valid()
      reads this
    {
      1 <= width && 1 <= height && |bits| == width * height
    }

    /** `init(width:height:value:)`: a dimension below 1 becomes 1; every bit
        holds the default value. */
    constructor (inputWidth: int, inputHeight: int, defaultValue: bool := false)
      ensures Valid()
      ensures width == (if inputWidth >= 1 then inputWidth else 1)
      ensures height == (if inputHeight >= 1 then inputHeight else 1)
      ensures forall i :: 0 <= i < |bits| ==> bits[i] == defaultValue
    {
      width := if inputWidth >= 1 then inputWidth else 1;
      height := if inputHeight >= 1 then inputHeight else 1;
      new;
      bits := seq(width * height, _ => defaultValue);
    }

    /** `size`: the number of cells. */
    function Size(): (r: int)
      reads this
      requires Valid()
      ensures r == width * height
    {
      |bits|
    }

    /** `value(row:column:)`: the bit at flat index row * width + column, or
        false when that index is outside the array. A column past the right
        edge therefore reads the next row. */
    function Value(row: int, column: int): (r: bool)
      reads this
      requires Valid()
      ensures r ==> 0 <= Index(width, row, column) < |bits| && bits[Index(width, row, column)]
      ensures 0 <= Index(width, row, column) < |bits| && bits[Index(width, row, column)] ==> r
    {
      IndexIsProduct(width, row, column);
      var index := row * width + column;
      if index < 0 || index >= |bits| then false else bits[index]
    }

    /** `value(index:)`: the flat index is row-major; it traps outside the
        array. */
    function ValueAtIndex(index: int): (r: bool)
      reads this
      requires Valid() && 0 <= index < |bits|
      ensures r == Value(index / width, index % width)
    {
      CellOfIndex(width, index);
      bits[index]
    }

    /** `rowValues(row:)`: the row's bits left to right; empty for a row
        outside the matrix. */
    function RowValues(row: int): (r: (int, seq<bool>))
      reads this
      requires Valid()
      ensures r.0 == row
      ensures !(0 <= row < height) ==> r.1 == []
      ensures 0 <= row < height ==> |r.1| == width && forall c :: 0 <= c < width ==> r.1[c] == Value(row, c)
    {
      if row < 0 || row >= height then (row, [])
      else
        var start := row * width;
        IndexIsProduct(width, row, 0);
        IndexBounds(width, height, row, width - 1);
        RowIndices(width, row);
        (row, bits[start..start + width])
    }

    /** `coordinates(index:)`: None outside the array; otherwise the row is
        index / width, and the column is computed as row % width rather than
        index % width. */
    function Coordinates(index: int): (r: Option<Position>)
      reads this
      requires Valid()
      ensures r.None? <==> !(0 <= index < |bits|)
      ensures r.Some? ==> 0 <= r.value.row < height && 0 <= r.value.column < width
      ensures r.Some? ==> Index(width, r.value.row, index % width) == index
    {
      if index < 0 || index >= |bits| then None
      else
        var row := index / width;
        var column := row % width;
        CellOfIndex(width, index);
        RowBound(width, height, index);
        Some(Position(row, column))
    }

    /** The coordinates `coordinates(index:)` evidently means: column
        index % width, the inverse of the row-major layout. Inside the
        array the cell it names holds the bit at that index. */
    function IntendedCoordinates(index: int): (r: Option<Position>)
      reads this
      requires Valid()
      ensures r.None? <==> !(0 <= index < |bits|)
      ensures r.Some? ==> 0 <= r.value.row < height && 0 <= r.value.column < width
      ensures r.Some? ==> Index(width, r.value.row, r.value.column) == index
      ensures r.Some? ==> Value(r.value.row, r.value.column) == bits[index]
    {
      if index < 0 || index >= |bits| then None
      else
        CellOfIndex(width, index);
        RowBound(width, height, index);
        Some(Position(index / width, index % width))
    }

    /** `setValue(value:row:column:)`: writes the bit at flat index
        row * width + column, and nothing when that index is outside. */
    method SetValue(newValue: bool, row: int, column: int)
      requires Valid()
      modifies this
      ensures Valid()
      ensures var i := Index(width, row, column);
        bits == if 0 <= i < |old(bits)| then old(bits)[i := newValue] else old(bits)
    {
      IndexIsProduct(width, row, column);
      var index := row * width + column;
      if index < 0 || index >= |bits| {
        return;
      }
      bits := bits[index := newValue];
    }

    /** Whether `setRegion` writes anything: the corner is inside, the size
        positive, and the far edges within the matrix. */
    predicate RegionFits(left: int, top: int, regionWidth: int, regionHeight: int)
    {
      0 <= left && 0 <= top && 1 <= regionWidth && 1 <= regionHeight &&
      left + regionWidth <= width && top + regionHeight <= height
    }

    /** `setRegion(value:left:top:width:height:)`: every cell of the
        rectangle takes the value when the rectangle fits; otherwise nothing
        changes. */
    method SetRegion(newValue: bool, left: int, top: int, regionWidth: int, regionHeight: int)
      requires Valid()
      modifies this
      ensures Valid()
      ensures forall r, c :: 0 <= r < height && 0 <= c < width ==>
        CellOf(bits, width, height, r, c) ==
          if RegionFits(left, top, regionWidth, regionHeight) && InRegion(left, top, regionWidth, regionHeight, r, c)
          then newValue else CellOf(old(bits), width, height, r, c)
      ensures !RegionFits(left, top, regionWidth, regionHeight) ==> bits == old(bits)
    {
      if left < 0 || top < 0 {
        return;
      }
      if regionWidth < 1 || regionHeight < 1 {
        return;
      }
      var right := left + regionWidth;
      var bottom := top + regionHeight;
      if right > width || bottom > height {
        return;
      }
      var row := top;
      while row < bottom
        invariant Valid() && top <= row <= bottom
        invariant forall r, c :: 0 <= r < height && 0 <= c < width ==>
          CellOf(bits, width, height, r, c) ==
            if top <= r < row && left <= c < right then newValue else CellOf(old(bits), width, height, r, c)
      {
        var rowOffset := row * width;
        var column := left;
        while column < right
          invariant Valid() && left <= column <= right
          invariant forall r, c :: 0 <= r < height && 0 <= c < width ==>
            CellOf(bits, width, height, r, c) ==
              if (top <= r < row && left <= c < right) || (r == row && left <= c < column)
              then newValue else CellOf(old(bits), width, height, r, c)
        {
          var index := rowOffset + column;
          IndexIsProduct(width, row, column);
          IndexBounds(width, height, row, column);
          ghost var before := bits;
          bits := bits[index := newValue];
          WriteCell(before, bits, width, height, newValue, row, column);
          column := column + 1;
        }
        row := row + 1;
      }
    }

    /** `setRegion(value:minX:maxX:minY:maxY:)`: the rectangle from
        (minX, minY) up to but excluding (maxX, maxY). */
    method SetRegionBetween(newValue: bool, minX: int, maxX: int, minY: int, maxY: int)
      requires Valid()
      modifies this
      ensures Valid()
      ensures forall r, c :: 0 <= r < height && 0 <= c < width ==>
        CellOf(bits, width, height, r, c) ==
          if RegionFits(minX, minY, maxX - minX, maxY - minY) && minY <= r < maxY && minX <= c < maxX
          then newValue else CellOf(old(bits), width, height, r, c)
    {
      SetRegion(newValue, minX, minY, maxX - minX, maxY - minY);
    }

    /** `reset(value:)`: every bit takes the value. */
    method Reset(newValue: bool := false)
      requires Valid()
      modifies this
      ensures Valid()
      ensures forall i :: 0 <= i < |bits| ==> bits[i] == newValue
    {
      var index := 0;
      while index < |bits|
        invariant Valid() && 0 <= index <= |bits|
        invariant forall i :: 0 <= i < index ==> bits[i] == newValue
      {
        bits := bits[index := newValue];
        index := index + 1;
      }
    }

    /** `findTopLeftOnBit()`: the coordinates of the first black bit in
        row-major order, None when there is none. */
    method FindTopLeftOnBit() returns (r: Option<Position>)
      requires Valid()
      ensures r.None? <==> forall i :: 0 <= i < |bits| ==> !bits[i]
      ensures r.Some? ==> exists i :: (0 <= i < |bits| && bits[i] && r == Coordinates(i) &&
        forall j :: 0 <= j < i ==> !bits[j])
    {
      var bitsOffset := -1;
      var idx := 0;
      while idx < |bits|
        invariant 0 <= idx <= |bits|
        invariant bitsOffset == -1 && forall j :: 0 <= j < idx ==> !bits[j]
      {
        if bits[idx] {
          bitsOffset := idx;
          break;
        }
        idx := idx + 1;
      }
      if bitsOffset < 0 {
        return None;
      }
      r := Coordinates(bitsOffset);
    }

    /** `findBottomRightOnBit()`: the coordinates of the last black bit in
        row-major order, None when there is none. */
    method FindBottomRightOnBit() returns (r: Option<Position>)
      requires Valid()
      ensures r.None? <==> forall i :: 0 <= i < |bits| ==> !bits[i]
      ensures r.Some? ==> exists i :: (0 <= i < |bits| && bits[i] && r == Coordinates(i) &&
        forall j :: i < j < |bits| ==> !bits[j])
    {
      var bitsOffset := -1;
      var idx := |bits|;
      while idx > 0
        invariant 0 <= idx <= |bits|
        invariant bitsOffset == -1 && forall j :: idx <= j < |bits| ==> !bits[j]
      {
        if bits[idx - 1] {
          bitsOffset := idx - 1;
          break;
        }
        idx := idx - 1;
      }
      if bitsOffset < 0 {
        return None;
      }
      r := Coordinates(bitsOffset);
    }
  }

  /** A quotient of at least `height` means an index of at least
      width * height. */
  lemma DivAtLeast(index: int, width: int, height: int)
    requires 0 < width && 0 <= index && index / width >= height
    ensures index >= width * height
  {
    assert index >= (index / width) * width;
    assert (index / width) * width >= height * width;
  }

  /** `coordinates(index:)` is not the inverse of the row-major layout: in a
      2 x 2 matrix the bit at index 1 (row 0, column 1) is reported at column 0. */
  lemma CoordinatesColumnDiverges(m: BitMatrix)
    requires m.Valid() && m.width == 2 && m.height == 2
    ensures m.Coordinates(1) == Some(Position(0, 0))
    ensures m.Value(0, 1) == m.bits[1]
    ensures m.IntendedCoordinates(1) == Some(Position(0, 1))
  {
    assert Index(2, 0, 1) == 1;
    IntendedCoordinatesOfCell(m, 0, 1);
  }

  /** The intended coordinates invert the layout: every cell of the matrix
      is found again from its flat index. */
  lemma IntendedCoordinatesOfCell(m: BitMatrix, row: int, column: int)
    requires m.Valid() && 0 <= row < m.height && 0 <= column < m.width
    ensures m.IntendedCoordinates(Index(m.width, row, column)) == Some(Position(row, column))
  {
    IndexBounds(m.width, m.height, row, column);
    IndexCell(m.width, row, column);
  }
}
