/**
 * What the Life step promises: the neighbour count is the number of live
 * in-grid neighbours, out-of-grid positions count for nothing (so corners,
 * edges and interior cells see at most 3, 5 and 8 positions, exactly so on a
 * grid at least 2 by 2), the B3/S23 rule in terms of that count, the all-dead
 * fixed point, and locality.
 */
module LifeProperties {
  import opened Uint8
  import opened LifeEngine

  /** The position offset k of the 3x3 window denotes around (x, y). */
  function Pos(x: int, y: int, k: int): (int, int) {
    (x + OffsetX(k), y + OffsetY(k))
  }

  /** The number of the window offset that leads from (x, y) to position p. */
  function Num(x: int, y: int, p: (int, int)): int {
    3 * (p.1 - y + 1) + (p.0 - x + 1)
  }

  /**
   * Offset k is among the positions counted for (x, y): not the centre, on
   * the grid and, when `liveOnly` holds, holding a 1.
   */
  predicate Chosen(current: seq<Byte>, width: nat, height: nat, x: int, y: int, k: int, liveOnly: bool)
    requires |current| == width * height
  {
    && !IsCentre(k)
    && InGrid(width, height, x + OffsetX(k), y + OffsetY(k))
    && (liveOnly ==> At(current, width, height, x + OffsetX(k), y + OffsetY(k)) == 1)
  }

  /** The chosen positions among the first k offsets. */
  ghost function Selected(current: seq<Byte>, width: nat, height: nat, x: int, y: int, k: nat, liveOnly: bool): set<(int, int)>
    requires |current| == width * height
    requires k <= 9
  {
    if k == 0 then {}
    else
      Selected(current, width, height, x, y, k - 1, liveOnly)
      + (if Chosen(current, width, height, x, y, k - 1, liveOnly) then {Pos(x, y, k - 1)} else {})
  }

  /** The in-grid positions of the 3x3 window around (x, y), without (x, y) itself. */
  ghost function Neighbourhood(width: nat, height: nat, x: int, y: int): set<(int, int)> {
    set nx: int, ny: int | x - 1 <= nx <= x + 1 && y - 1 <= ny <= y + 1
                           && (nx, ny) != (x, y) && InGrid(width, height, nx, ny) :: (nx, ny)
  }

  /** The positions of the neighbourhood of (x, y) whose cell holds 1. */
  ghost function LiveNeighbours(current: seq<Byte>, width: nat, height: nat, x: int, y: int): set<(int, int)>
    requires |current| == width * height
  {
    set p | p in Neighbourhood(width, height, x, y) && At(current, width, height, p.0, p.1) == 1
  }

  lemma NumPos(x: int, y: int, k: int)
    requires 0 <= k < 9
    ensures Num(x, y, Pos(x, y, k)) == k
  {
  }

  /** Membership in Selected, in terms of the offset number of a position. */
  lemma {:induction false} SelectedMembers(current: seq<Byte>, width: nat, height: nat, x: int, y: int, k: nat, liveOnly: bool, p: (int, int))
    requires |current| == width * height
    requires k <= 9
    ensures p in Selected(current, width, height, x, y, k, liveOnly) <==>
      var j := Num(x, y, p);
      0 <= j < k && Pos(x, y, j) == p && Chosen(current, width, height, x, y, j, liveOnly)
  {
    if k > 0 {
      SelectedMembers(current, width, height, x, y, k - 1, liveOnly, p);
      NumPos(x, y, k - 1);
    }
  }

  /** Each step of Selected adds one new position exactly when that offset is chosen. */
  lemma SelectedStep(current: seq<Byte>, width: nat, height: nat, x: int, y: int, k: nat, liveOnly: bool)
    requires |current| == width * height
    requires k < 9
    ensures |Selected(current, width, height, x, y, k + 1, liveOnly)|
         == |Selected(current, width, height, x, y, k, liveOnly)|
            + (if Chosen(current, width, height, x, y, k, liveOnly) then 1 else 0)
  {
    NumPos(x, y, k);
    SelectedMembers(current, width, height, x, y, k, liveOnly, Pos(x, y, k));
  }

  /** Selecting over the whole window yields the neighbourhood, or its live part. */
  lemma SelectedWindow(current: seq<Byte>, width: nat, height: nat, x: int, y: int)
    requires |current| == width * height
    ensures Selected(current, width, height, x, y, 9, false) == Neighbourhood(width, height, x, y)
    ensures Selected(current, width, height, x, y, 9, true) == LiveNeighbours(current, width, height, x, y)
  {
    forall p: (int, int)
      ensures p in Selected(current, width, height, x, y, 9, false) <==> p in Neighbourhood(width, height, x, y)
      ensures p in Selected(current, width, height, x, y, 9, true) <==> p in LiveNeighbours(current, width, height, x, y)
    {
      SelectedMembers(current, width, height, x, y, 9, false, p);
      SelectedMembers(current, width, height, x, y, 9, true, p);
      if x - 1 <= p.0 <= x + 1 && y - 1 <= p.1 <= y + 1 {
        var j := Num(x, y, p);
        assert OffsetX(j) == p.0 - x && OffsetY(j) == p.1 - y;
      }
    }
  }

  /** On a 0/1 grid the running sum of the loops counts the live positions selected so far. */
  lemma {:induction false} PartialSumCountsLive(current: seq<Byte>, width: nat, height: nat, x: int, y: int, k: nat)
    requires |current| == width * height
    requires Binary(current)
    requires k <= 9
    ensures PartialSum(current, width, height, x, y, k) == |Selected(current, width, height, x, y, k, true)|
  {
    if k > 0 {
      PartialSumCountsLive(current, width, height, x, y, k - 1);
      SelectedStep(current, width, height, x, y, k - 1, true);
    }
  }

  /**
   * On a 0/1 grid the neighbour count of (x, y) is the number of live cells
   * at the in-grid positions (x + dx, y + dy), dx, dy in {-1, 0, 1}, (dx, dy) != (0, 0).
   */
  lemma NeighbourSumIsLiveCount(current: seq<Byte>, width: nat, height: nat, x: int, y: int)
    requires |current| == width * height
    requires Binary(current)
    ensures NeighbourSum(current, width, height, x, y) == |LiveNeighbours(current, width, height, x, y)|
  {
    PartialSumCountsLive(current, width, height, x, y, 9);
    SelectedWindow(current, width, height, x, y);
  }

  /** How many of the columns x - 1, x, x + 1 (or rows) lie in [0, size). */
  function Reach(x: int, size: nat): nat {
    (if 0 <= x - 1 < size then 1 else 0) + (if 0 <= x < size then 1 else 0) + (if 0 <= x + 1 < size then 1 else 0)
  }

  /** The positions row r of the window adds to the count: the whole row's reach, except the cell itself in the middle row. */
  lemma RowStep(current: seq<Byte>, width: nat, height: nat, x: int, y: int, r: nat)
    requires |current| == width * height
    requires InGrid(width, height, x, y)
    requires r < 3
    ensures |Selected(current, width, height, x, y, 3 * r + 3, false)|
         == |Selected(current, width, height, x, y, 3 * r, false)|
            + (if r == 1 then Reach(x, width) - 1 else if 0 <= y + r - 1 < height then Reach(x, width) else 0)
  {
    SelectedStep(current, width, height, x, y, 3 * r, false);
    SelectedStep(current, width, height, x, y, 3 * r + 1, false);
    SelectedStep(current, width, height, x, y, 3 * r + 2, false);
    if r == 0 {
      assert OffsetY(0) == -1 && OffsetY(1) == -1 && OffsetY(2) == -1;
    } else if r == 1 {
      assert OffsetY(3) == 0 && OffsetY(4) == 0 && OffsetY(5) == 0;
    } else {
      assert OffsetY(6) == 1 && OffsetY(7) == 1 && OffsetY(8) == 1;
    }
  }

  /** Without wraparound, the number of counted positions is the product of the in-grid columns and rows, less the cell itself. */
  lemma NeighbourhoodSize(width: nat, height: nat, x: int, y: int)
    requires InGrid(width, height, x, y)
    ensures |Neighbourhood(width, height, x, y)| == Reach(x, width) * Reach(y, height) - 1
  {
    var current := Zeros(width * height);
    SelectedWindow(current, width, height, x, y);
    RowStep(current, width, height, x, y, 0);
    RowStep(current, width, height, x, y, 1);
    RowStep(current, width, height, x, y, 2);
    var rx := Reach(x, width);
    if 0 <= y - 1 && y + 1 < height {
      assert Reach(y, height) == 3;
      assert rx * Reach(y, height) == rx * 3;
    } else if 0 <= y - 1 || y + 1 < height {
      assert Reach(y, height) == 2;
      assert rx * Reach(y, height) == rx * 2;
    } else {
      assert Reach(y, height) == 1;
      assert rx * Reach(y, height) == rx * 1;
    }
  }

  /** The position (x, y) lies on the left or right border, or on the top or bottom border. */
  predicate OnBorderX(width: nat, x: int) { x == 0 || x == width - 1 }
  predicate OnBorderY(height: nat, y: int) { y == 0 || y == height - 1 }

  predicate IsCorner(width: nat, height: nat, x: int, y: int) {
    OnBorderX(width, x) && OnBorderY(height, y)
  }

  predicate IsEdge(width: nat, height: nat, x: int, y: int) {
    (OnBorderX(width, x) || OnBorderY(height, y)) && !IsCorner(width, height, x, y)
  }

  predicate IsInterior(width: nat, height: nat, x: int, y: int) {
    !OnBorderX(width, x) && !OnBorderY(height, y)
  }

  /**
   * A corner cell has at most 3 counted positions, an edge cell at most 5 and
   * an interior cell exactly 8; on a grid at least 2 wide and 2 high corners
   * have exactly 3 and edge cells exactly 5.
   */
  lemma NeighbourhoodBounds(width: nat, height: nat, x: int, y: int)
    requires InGrid(width, height, x, y)
    ensures |Neighbourhood(width, height, x, y)| <= 8
    ensures IsCorner(width, height, x, y) ==> |Neighbourhood(width, height, x, y)| <= 3
    ensures IsEdge(width, height, x, y) ==> |Neighbourhood(width, height, x, y)| <= 5
    ensures IsInterior(width, height, x, y) ==> |Neighbourhood(width, height, x, y)| == 8
    ensures width >= 2 && height >= 2 && IsCorner(width, height, x, y) ==> |Neighbourhood(width, height, x, y)| == 3
    ensures width >= 2 && height >= 2 && IsEdge(width, height, x, y) ==> |Neighbourhood(width, height, x, y)| == 5
  {
    NeighbourhoodSize(width, height, x, y);
  }

  /** On a 0/1 grid the neighbour count never exceeds the number of counted positions. */
  lemma NeighbourSumBounded(current: seq<Byte>, width: nat, height: nat, x: int, y: int)
    requires |current| == width * height
    requires Binary(current)
    requires InGrid(width, height, x, y)
    ensures NeighbourSum(current, width, height, x, y) <= |Neighbourhood(width, height, x, y)| <= 8
  {
    NeighbourSumIsLiveCount(current, width, height, x, y);
    NeighbourhoodBounds(width, height, x, y);
    var live, all := LiveNeighbours(current, width, height, x, y), Neighbourhood(width, height, x, y);
    assert all == live + (all - live);
  }

  /** The next state of the cell at index i is the next state of its position. */
  lemma NextGenerationAt(current: seq<Byte>, width: nat, height: nat, x: int, y: int)
    requires |current| == width * height
    requires InGrid(width, height, x, y)
    ensures NextGeneration(width, height, current)[Index(width, height, x, y)] == NextCell(current, width, height, x, y)
  {
    NextAtIndex(current, width, height, x, y);
  }

  /**
   * B3/S23 on a 0/1 grid: a cell is alive in the next generation iff it is
   * alive with 2 or 3 live neighbours or dead with exactly 3; otherwise it is dead.
   */
  lemma NextGenerationRule(current: seq<Byte>, width: nat, height: nat, x: int, y: int)
    requires |current| == width * height
    requires Binary(current)
    requires InGrid(width, height, x, y)
    ensures var i, n := Index(width, height, x, y), |LiveNeighbours(current, width, height, x, y)|;
      && (NextGeneration(width, height, current)[i] == 1 <==>
            (current[i] == 1 && (n == 2 || n == 3)) || (current[i] == 0 && n == 3))
      && (NextGeneration(width, height, current)[i] == 0 <==>
            !((current[i] == 1 && (n == 2 || n == 3)) || (current[i] == 0 && n == 3)))
  {
    NextGenerationAt(current, width, height, x, y);
    NeighbourSumIsLiveCount(current, width, height, x, y);
  }

  /**
   * Consequences of the rule: a cell with 0 or 1 live neighbours is dead next,
   * a cell with exactly 3 is alive next, a live cell with 4 or more dies.
   */
  lemma RuleConsequences(current: seq<Byte>, width: nat, height: nat, x: int, y: int)
    requires |current| == width * height
    requires Binary(current)
    requires InGrid(width, height, x, y)
    ensures var i, n := Index(width, height, x, y), |LiveNeighbours(current, width, height, x, y)|;
      && (n <= 1 ==> NextGeneration(width, height, current)[i] == 0)
      && (n == 3 ==> NextGeneration(width, height, current)[i] == 1)
      && (n >= 4 ==> NextGeneration(width, height, current)[i] == 0)
  {
    NextGenerationRule(current, width, height, x, y);
  }

  /** Over an all-dead grid every partial neighbour count is 0. */
  lemma {:induction false} DeadPartialSum(width: nat, height: nat, x: int, y: int, k: nat)
    requires k <= 9
    ensures PartialSum(Zeros(width * height), width, height, x, y, k) == 0
  {
    if k > 0 {
      DeadPartialSum(width, height, x, y, k - 1);
    }
  }

  /** An all-dead grid maps to an all-dead grid. */
  lemma AllDeadStaysDead(width: nat, height: nat)
    ensures NextGeneration(width, height, Zeros(width * height)) == Zeros(width * height)
  {
    var dead := Zeros(width * height);
    forall i | 0 <= i < width * height
      ensures NextGeneration(width, height, dead)[i] == 0
    {
      CoordinatesInGrid(width, height, i);
      DeadPartialSum(width, height, i % width, i / width, 9);
    }
  }

  /** Two grids that agree on the 3x3 window around (x, y) give the same partial counts. */
  lemma {:induction false} LocalPartialSum(current: seq<Byte>, other: seq<Byte>, width: nat, height: nat, x: int, y: int, k: nat)
    requires |current| == width * height && |other| == width * height
    requires forall nx, ny :: x - 1 <= nx <= x + 1 && y - 1 <= ny <= y + 1 ==>
               At(current, width, height, nx, ny) == At(other, width, height, nx, ny)
    requires k <= 9
    ensures PartialSum(current, width, height, x, y, k) == PartialSum(other, width, height, x, y, k)
  {
    if k > 0 {
      LocalPartialSum(current, other, width, height, x, y, k - 1);
      var nx, ny := x + OffsetX(k - 1), y + OffsetY(k - 1);
      assert At(current, width, height, nx, ny) == At(other, width, height, nx, ny);
    }
  }

  /** Locality: the next state of (x, y) depends only on the input cells of its bounded 3x3 window. */
  lemma Locality(current: seq<Byte>, other: seq<Byte>, width: nat, height: nat, x: int, y: int)
    requires |current| == width * height && |other| == width * height
    requires InGrid(width, height, x, y)
    requires forall nx, ny :: x - 1 <= nx <= x + 1 && y - 1 <= ny <= y + 1 ==>
               At(current, width, height, nx, ny) == At(other, width, height, nx, ny)
    ensures NextGeneration(width, height, current)[Index(width, height, x, y)]
         == NextGeneration(width, height, other)[Index(width, height, x, y)]
  {
    NextGenerationAt(current, width, height, x, y);
    NextGenerationAt(other, width, height, x, y);
    LocalPartialSum(current, other, width, height, x, y, 9);
    assert At(current, width, height, x, y) == At(other, width, height, x, y);
  }
}
