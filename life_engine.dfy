/**
 * One step of Conway's Game of Life (rule B3/S23) on a bounded, row-major
 * `width * height` byte grid without wraparound: the specification of the
 * step as functions on sequences, and the nested-loop computation over
 * arrays that allocates and fills the next generation.
 */
module LifeEngine {
  import opened Uint8

  /** The position (x, y) lies on the width-by-height grid. */
  predicate InGrid(width: int, height: int, x: int, y: int) {
    0 <= x < width && 0 <= y < height
  }

  /** Multiplication by a natural number is monotonic. */
  lemma {:induction false} MulMonotonic(a: int, b: int, c: nat)
    requires a <= b
    ensures a * c <= b * c
  {
    if c > 0 {
      MulMonotonic(a, b, c - 1);
      assert a * c == a * (c - 1) + a;
      assert b * c == b * (c - 1) + b;
    }
  }

  /** Multiplication by a natural number is strictly monotonic, by steps of that number. */
  lemma MulStrict(a: int, b: int, c: nat)
    requires a < b
    ensures a * c + c <= b * c
  {
    MulMonotonic(a + 1, b, c);
    assert (a + 1) * c == a * c + c;
  }

  /** Row-major index of an on-grid position. */
  function Index(width: nat, height: nat, x: int, y: int): (i: nat)
    requires InGrid(width, height, x, y)
    ensures i < width * height
  {
    MulStrict(y, height, width);
    y * width + x
  }

  /** Row-major indices decompose into the column and the row. */
  lemma IndexDecompose(width: nat, x: int, y: int)
    requires 0 <= x < width && 0 <= y
    ensures (y * width + x) / width == y
    ensures (y * width + x) % width == x
  {
    var i := y * width + x;
    var q, r := i / width, i % width;
    assert q * width + r == y * width + x;
    if q > y {
      MulStrict(y, q, width);
    } else if q < y {
      MulStrict(q, y, width);
    }
  }

  /** Every index of the grid is the index of an on-grid position. */
  lemma CoordinatesInGrid(width: nat, height: nat, i: int)
    requires 0 <= i < width * height
    ensures width > 0 && InGrid(width, height, i % width, i / width)
    ensures (i / width) * width + i % width == i
  {
    var q := i / width;
    if q >= height {
      MulMonotonic(height, q, width);
    }
  }

  /** The value at (x, y) that a neighbour count sees: the cell itself on the grid, and 0 off it. */
  function At(current: seq<Byte>, width: nat, height: nat, x: int, y: int): Byte
    requires |current| == width * height
  {
    if InGrid(width, height, x, y) then current[Index(width, height, x, y)] else 0
  }

  /**
   * The nine offsets of the 3x3 window, numbered 0 to 8 in the order the
   * loops visit them: dy outer, dx inner, both from -1 to 1.
   */
  function OffsetX(k: int): int {
    if k == 0 || k == 3 || k == 6 then -1 else if k == 1 || k == 4 || k == 7 then 0 else 1
  }
  function OffsetY(k: int): int {
    if k < 3 then -1 else if k < 6 then 0 else 1
  }

  /** How many offsets the loops have visited when they reach the position (dx, dy). */
  function Visited(dx: int, dy: int): int {
    3 * (dy + 1) + (dx + 1)
  }

  /** Offset k is the centre of the window, which the count skips. */
  predicate IsCentre(k: int) {
    OffsetX(k) == 0 && OffsetY(k) == 0
  }

  /** What offset k adds to the neighbour count of (x, y). */
  function Term(current: seq<Byte>, width: nat, height: nat, x: int, y: int, k: int): Byte
    requires |current| == width * height
  {
    if IsCentre(k) then 0 else At(current, width, height, x + OffsetX(k), y + OffsetY(k))
  }

  /** The neighbour count of (x, y) after the loops have visited the first k offsets. */
  function PartialSum(current: seq<Byte>, width: nat, height: nat, x: int, y: int, k: nat): nat
    requires |current| == width * height
    requires k <= 9
  {
    if k == 0 then 0
    else PartialSum(current, width, height, x, y, k - 1) + Term(current, width, height, x, y, k - 1)
  }

  /** One step of the running count, in the loops' own terms: what the position (dx, dy) adds. */
  lemma SumStep(current: seq<Byte>, width: nat, height: nat, x: int, y: int, dx: int, dy: int, before: int, after: int)
    requires |current| == width * height
    requires -1 <= dx <= 1 && -1 <= dy <= 1
    requires before == PartialSum(current, width, height, x, y, Visited(dx, dy))
    requires after == before + if dx == 0 && dy == 0 then 0 else At(current, width, height, x + dx, y + dy)
    ensures after == PartialSum(current, width, height, x, y, Visited(dx + 1, dy))
  {
  }

  /** The sum of the byte values of the in-grid neighbours of (x, y). */
  function NeighbourSum(current: seq<Byte>, width: nat, height: nat, x: int, y: int): nat
    requires |current| == width * height
  {
    PartialSum(current, width, height, x, y, 9)
  }

  /** The B3/S23 rule: born with exactly 3 neighbours, survives with 2 or 3. */
  predicate LivesNext(alive: bool, neighbours: int) {
    (alive && (neighbours == 2 || neighbours == 3)) || (!alive && neighbours == 3)
  }

  /** The next state of the cell at (x, y); only a cell holding exactly 1 counts as alive. */
  function NextCell(current: seq<Byte>, width: nat, height: nat, x: int, y: int): Byte
    requires |current| == width * height
    requires InGrid(width, height, x, y)
  {
    var alive := current[Index(width, height, x, y)] == 1;
    if LivesNext(alive, NeighbourSum(current, width, height, x, y)) then 1 else 0
  }

  /** The next state of the cell at row-major index i. */
  function NextAt(current: seq<Byte>, width: nat, height: nat, i: int): Byte
    requires |current| == width * height
    requires 0 <= i < width * height
  {
    CoordinatesInGrid(width, height, i);
    NextCell(current, width, height, i % width, i / width)
  }

  /** NextAt at the index of (x, y) is the next state of (x, y). */
  lemma NextAtIndex(current: seq<Byte>, width: nat, height: nat, x: int, y: int)
    requires |current| == width * height
    requires InGrid(width, height, x, y)
    ensures NextAt(current, width, height, Index(width, height, x, y)) == NextCell(current, width, height, x, y)
  {
    IndexDecompose(width, x, y);
  }

  /** The next generation of the whole grid. */
  function NextGeneration(width: nat, height: nat, current: seq<Byte>): (next: seq<Byte>)
    requires |current| == width * height
    ensures |next| == width * height
    ensures Binary(next)
  {
    seq(width * height, i requires 0 <= i < width * height => NextAt(current, width, height, i))
  }

  /**
   * Sums the values of the in-grid cells around (x, y), visiting the 3x3
   * window row by row and skipping the centre.
   */
  method CountNeighbours(width: nat, height: nat, current: array<Byte>, x: int, y: int) returns (neighbors: int)
    requires current.Length == width * height
    ensures neighbors == NeighbourSum(current[..], width, height, x, y)
  {
    ghost var cur := current[..];
    neighbors := 0;
    for dy := -1 to 2
      invariant neighbors == PartialSum(cur, width, height, x, y, Visited(-1, dy))
    {
      for dx := -1 to 2
        invariant neighbors == PartialSum(cur, width, height, x, y, Visited(dx, dy))
      {
        ghost var before := neighbors;
        if !(dx == 0 && dy == 0) {
          var nx := x + dx;
          var ny := y + dy;
          if nx >= 0 && nx < width && ny >= 0 && ny < height {
            var nIdx := Index(width, height, nx, ny);
            neighbors := neighbors + current[nIdx];
          }
        }
        SumStep(cur, width, height, x, y, dx, dy, before, neighbors);
      }
    }
  }

  /**
   * Allocates a zero-filled buffer and sets to 1 every cell that lives in the
   * next generation; the input buffer is only read.
   */
  method ComputeNextGeneration(width: nat, height: nat, current: array<Byte>) returns (next: array<Byte>)
    requires current.Length == width * height
    ensures fresh(next)
    ensures next[..] == NextGeneration(width, height, current[..])
  {
    ghost var cur := current[..];
    next := new Byte[width * height](_ => 0);
    for y := 0 to height
      invariant forall i :: 0 <= i < y * width ==> next[i] == NextAt(cur, width, height, i)
      invariant forall i :: y * width <= i < width * height ==> next[i] == 0
    {
      MulStrict(y, height, width);
      for x := 0 to width
        invariant y * width + x <= width * height
        invariant forall i :: 0 <= i < y * width + x ==> next[i] == NextAt(cur, width, height, i)
        invariant forall i :: y * width + x <= i < width * height ==> next[i] == 0
      {
        var idx := y * width + x;
        assert idx == Index(width, height, x, y);
        var neighbors := CountNeighbours(width, height, current, x, y);
        var isAlive := current[idx] == 1;
        NextAtIndex(cur, width, height, x, y);
        if (isAlive && (neighbors == 2 || neighbors == 3)) || (!isAlive && neighbors == 3) {
          next[idx] := 1;
        }
        assert next[idx] == NextAt(cur, width, height, idx);
      }
      assert y * width + width == (y + 1) * width;
    }
    assert next[..] == NextGeneration(width, height, cur);
  }
}
