/** ZXByteMatrix.swift: the QR symbol under construction. A grid of bytes
    in which 0 and 1 are light and dark modules and 255 marks a cell that no
    pattern has claimed yet. */
module ByteMatrices {
  /** Swift's `UInt8`. */
  newtype uint8 = x: int | 0 <= x < 0x100

  /** `InvalidByteValue`, `UInt8.max`: the value of an unset cell. */
  const InvalidByteValue: uint8 := 255

  /** A grid of `height` rows holding `width` cells each. */
  ghost predicate IsGrid(g: seq<seq<uint8>>, width: int, height: int)
  {
    |g| == height && forall y :: 0 <= y < height ==> |g[y]| == width
  }

  /** `ZXByteMatrix`. The Swift struct is a value; here it is an object whose
      `bytes` the mutating methods reassign. */
  class ByteMatrix {
    const width: int
    const height: int
    var bytes: seq<seq<uint8>>

    /** The dimensions `init` accepts, and rows of the stated width. */
    ghost predicate Valid()
      reads this
    {
      0 <= height && (height > 0 ==> 0 <= width) && IsGrid(bytes, width, height)
    }

    /** `init(width:height:)`: `height` rows of `width` zero cells. A negative
        height traps on the row range, and so does a negative width once a
        row is built. */
    constructor (width: int, height: int)
      requires 0 <= height && (height > 0 ==> 0 <= width)
      ensures Valid() && this.width == width && this.height == height
      ensures forall y, x :: 0 <= y < height && 0 <= x < width ==> bytes[y][x] == 0
    {
      this.width := width;
      this.height := height;
      var tempBytes: seq<seq<uint8>> := [];
      var i := 0;
      while i < height
        invariant 0 <= i <= height
        invariant |tempBytes| == i
        invariant forall y :: 0 <= y < i ==> |tempBytes[y]| == width
        invariant forall y, x :: 0 <= y < i && 0 <= x < width ==> tempBytes[y][x] == 0
      {
        var row: seq<uint8> := seq(width, _ => 0);
        tempBytes := tempBytes + [row];
        i := i + 1;
      }
      bytes := tempBytes;
    }

    /** `value(column:row:)`. */
    function Value(x: int, y: int): uint8
      reads this
      requires Valid() && 0 <= x < width && 0 <= y < height
    {
      bytes[y][x]
    }

    /** `isEmpty(column:row:)`: the cell still holds `InvalidByteValue`. */
    predicate IsEmpty(x: int, y: int)
      reads this
      requires Valid() && 0 <= x < width && 0 <= y < height
    {
      Value(x, y) == InvalidByteValue
    }

    /** `setValue(_: UInt8, column:row:)`: changes exactly cell (x, y). */
    method SetValue(newValue: uint8, x: int, y: int)
      requires Valid() && 0 <= x < width && 0 <= y < height
      modifies this
      ensures Valid()
      ensures bytes == old(bytes)[y := old(bytes)[y][x := newValue]]
    {
      bytes := bytes[y := bytes[y][x := newValue]];
    }

    /** `setValue(_: Int, column:row:)`: the conversion `UInt8(newValue)`
        traps outside 0..255. */
    method SetInt(newValue: int, x: int, y: int)
      requires Valid() && 0 <= x < width && 0 <= y < height
      requires 0 <= newValue < 0x100
      modifies this
      ensures Valid()
      ensures bytes == old(bytes)[y := old(bytes)[y][x := newValue as uint8]]
    {
      SetValue(newValue as uint8, x, y);
    }

    /** `setValue(_: Bool, column:row:)`: dark is 1, light is 0. */
    method SetBool(newValue: bool, x: int, y: int)
      requires Valid() && 0 <= x < width && 0 <= y < height
      modifies this
      ensures Valid()
      ensures bytes == old(bytes)[y := old(bytes)[y][x := if newValue then 1 else 0]]
    {
      SetInt(if newValue then 1 else 0, x, y);
    }

    /** `clear(value:)`: every cell becomes `value`; by default every cell
        becomes empty. */
    method Clear(value: uint8 := InvalidByteValue)
      requires Valid()
      modifies this
      ensures Valid()
      ensures forall y, x :: 0 <= y < height && 0 <= x < width ==> bytes[y][x] == value
      ensures value == InvalidByteValue ==>
        forall y, x :: 0 <= y < height && 0 <= x < width ==> IsEmpty(x, y)
    {
      var row := 0;
      while row < height
        invariant Valid() && 0 <= row <= height
        invariant forall y, x :: 0 <= y < row && 0 <= x < width ==> bytes[y][x] == value
      {
        var col := 0;
        while col < width
          invariant Valid() && 0 <= col <= width
          invariant forall y, x :: 0 <= y < row && 0 <= x < width ==> bytes[y][x] == value
          invariant forall x :: 0 <= x < col ==> bytes[row][x] == value
        {
          SetValue(value, col, row);
          col := col + 1;
        }
        row := row + 1;
      }
    }
  }
}
