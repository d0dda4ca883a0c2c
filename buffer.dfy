/**
 * The frame buffer: a width x height grid stored row after row in one flat
 * array, cell (x, y) at index x + width * y. The source performs no bounds
 * check, so the coordinates' range is a precondition of read and write.
 */
module Buffers {

  /** The largest value of the source's 32-bit int. */
  const IntMax: int := 0x7FFF_FFFF

  /** Position of cell (x, y) in the flat storage. */
  function Index(width: int, x: int, y: int): int {
    x + width * y
  }

  predicate InGrid(width: int, height: int, x: int, y: int) {
    0 <= x < width && 0 <= y < height
  }

  lemma MulNonNegative(a: int, b: int)
    requires 0 <= a && 0 <= b
    ensures 0 <= a * b
  {
  }

  /** 0 <= a and b <= c give a * b <= a * c. */
  lemma MulMonotone(a: int, b: int, c: int)
    requires 0 <= a && b <= c
    ensures a * b <= a * c
  {
  }

  /** Every cell of the grid has an index inside the storage. */
  lemma IndexInRange(width: int, height: int, x: int, y: int)
    requires InGrid(width, height, x, y)
    ensures 0 <= Index(width, x, y) < width * height
  {
    MulNonNegative(width, y);
    assert width * y + width == width * (y + 1);
    MulMonotone(width, y + 1, height);
  }

  /** Distinct cells occupy distinct indices. */
  lemma IndexInjective(width: int, height: int, x: int, y: int, x': int, y': int)
    requires InGrid(width, height, x, y) && InGrid(width, height, x', y')
    requires Index(width, x, y) == Index(width, x', y')
    ensures x == x' && y == y'
  {
    if y < y' {
      assert width * y + width == width * (y + 1);
      MulMonotone(width, y + 1, y');
    } else if y' < y {
      assert width * y' + width == width * (y' + 1);
      MulMonotone(width, y' + 1, y);
    }
  }

  /** Every index of the storage belongs to the cell (i % width, i / width). */
  lemma IndexCovers(width: int, height: int, i: int)
    requires 0 <= width && 0 <= height && 0 <= i < width * height
    ensures 0 < width
    ensures InGrid(width, height, i % width, i / width) && Index(width, i % width, i / width) == i
  {
  }

  class Buffer<T(0)> {
    const width: int
    const height: int
    const buffer: array<T>

    /** The storage holds exactly one cell per grid position. */
    ghost predicate Valid() {
      0 <= width && 0 <= height && buffer.Length == width * height
    }

    /** The value at cell (x, y). */
    ghost function Cell(x: int, y: int): T
      requires Valid() && InGrid(width, height, x, y)
      reads buffer
    {
      IndexInRange(width, height, x, y);
      buffer[Index(width, x, y)]
    }

    /**
     * Allocates width * height cells. Their initial contents are
     * unspecified, as for a default-initialised C++ array.
     */
    constructor (width: int, height: int)
      requires 0 <= width && 0 <= height && width * height <= IntMax
      ensures Valid() && fresh(buffer)
      ensures this.width == width && this.height == height
      ensures buffer.Length == width * height
    {
      this.width := width;
      this.height := height;
      this.buffer := new T[width * height];
    }

    method GetWidth() returns (w: int)
      ensures w == width
    {
      w := width;
    }

    method GetHeight() returns (h: int)
      ensures h == height
    {
      h := height;
    }

    /** The value stored at (x, y); nothing changes. */
    method Read(x: int, y: int) returns (value: T)
      requires Valid() && InGrid(width, height, x, y)
      ensures value == Cell(x, y)
    {
      IndexInRange(width, height, x, y);
      value := buffer[x + width * y];
    }

    /** Stores value at (x, y) and leaves every other cell as it was. */
    method Write(value: T, x: int, y: int)
      requires Valid() && InGrid(width, height, x, y)
      modifies buffer
      ensures Valid()
      ensures Cell(x, y) == value
      ensures forall x', y' :: InGrid(width, height, x', y') && (x', y') != (x, y) ==>
                Cell(x', y') == old(Cell(x', y'))
      ensures 0 <= Index(width, x, y) < buffer.Length &&
              buffer[..] == old(buffer[..])[Index(width, x, y) := value]
    {
      IndexInRange(width, height, x, y);
      ghost var before := buffer[..];
      var k := x + width * y;
      buffer[k] := value;
      assert buffer[..] == before[k := value];
      forall x', y' | InGrid(width, height, x', y') && (x', y') != (x, y)
        ensures Cell(x', y') == old(Cell(x', y'))
      {
        IndexInRange(width, height, x', y');
        if Index(width, x', y') == Index(width, x, y) {
          IndexInjective(width, height, x, y, x', y');
        }
      }
    }
  }
}
