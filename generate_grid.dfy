/**
 * Random initial grids. Each `Math.random()` call is replaced by the next
 * element of a sequence of draws supplied by the caller: `draws[i]` is the
 * value drawn for cell i, and a cell is alive when its draw is below the ratio.
 */
module GenerateGrid {
  import opened Uint8
  import opened Wrappers

  /** The ratio both generators use when the caller gives none. */
  const DefaultRatio: real := 0.3

  /** The options of `generateInitialGrid`; an absent ratio falls back to DefaultRatio. */
  datatype GridConfig = GridConfig(width: nat, height: nat, aliveRatio: Option<real>)

  /** The bitmap drawn for `total` cells: 1 where the draw is below the ratio, 0 elsewhere. */
  function InitialBitmap(draws: seq<real>, ratio: real, total: nat): (grid: seq<Byte>)
    requires |draws| >= total
    ensures |grid| == total
    ensures Binary(grid)
  {
    seq(total, i requires 0 <= i < total => if draws[i] < ratio then 1 else 0)
  }

  /** Every element is smaller than the next. */
  predicate StrictlyIncreasing(s: seq<nat>) {
    forall j, k :: 0 <= j < k < |s| ==> s[j] < s[k]
  }

  /**
   * `cells` lists, in increasing order, exactly the indices below `total`
   * whose draw is below the ratio.
   */
  ghost predicate AliveIndices(cells: seq<nat>, draws: seq<real>, ratio: real, total: nat)
    requires |draws| >= total
  {
    && StrictlyIncreasing(cells)
    && (forall k :: 0 <= k < |cells| ==> cells[k] < total)
    && (forall i :: 0 <= i < total ==> (i in cells <==> draws[i] < ratio))
  }

  /**
   * The indices of the alive cells of a `width * height` grid, in increasing
   * order; the same draws give the same cells as `GenerateInitialBitmap`.
   */
  method GenerateInitialGrid(config: GridConfig, draws: seq<real>) returns (cells: seq<nat>)
    requires |draws| >= config.width * config.height
    ensures AliveIndices(cells, draws, config.aliveRatio.GetOr(DefaultRatio), config.width * config.height)
    ensures |cells| <= config.width * config.height
    ensures forall i :: 0 <= i < config.width * config.height ==>
              (i in cells <==> InitialBitmap(draws, config.aliveRatio.GetOr(DefaultRatio), config.width * config.height)[i] == 1)
  {
    var aliveRatio := config.aliveRatio.GetOr(DefaultRatio);
    var total := config.width * config.height;
    cells := [];
    for i := 0 to total
      invariant StrictlyIncreasing(cells)
      invariant |cells| <= i
      invariant forall k :: 0 <= k < |cells| ==> cells[k] < i
      invariant forall j :: 0 <= j < i ==> (j in cells <==> draws[j] < aliveRatio)
      invariant forall j :: i <= j ==> j !in cells
    {
      if draws[i] < aliveRatio {
        cells := cells + [i];
      }
    }
  }

  /** Fills a fresh `width * height` buffer with 1 where the draw is below the ratio and 0 elsewhere. */
  method GenerateInitialBitmap(width: nat, height: nat, draws: seq<real>, ratio: real := DefaultRatio) returns (grid: array<Byte>)
    requires |draws| >= width * height
    ensures fresh(grid)
    ensures grid[..] == InitialBitmap(draws, ratio, width * height)
  {
    grid := new Byte[width * height](_ => 0);
    for i := 0 to grid.Length
      invariant forall j :: 0 <= j < i ==> grid[j] == InitialBitmap(draws, ratio, width * height)[j]
    {
      grid[i] := if draws[i] < ratio then 1 else 0;
    }
  }

  /** Every draw lies in [0, 1), as `Math.random()` promises. */
  predicate UnitDraws(draws: seq<real>, total: nat)
    requires |draws| >= total
  {
    forall i :: 0 <= i < total ==> 0.0 <= draws[i] < 1.0
  }

  /** With draws in [0, 1), a ratio of 0 or less leaves every cell dead and a ratio of 1 or more makes every cell alive. */
  lemma BitmapExtremeRatios(draws: seq<real>, ratio: real, total: nat)
    requires |draws| >= total
    requires UnitDraws(draws, total)
    ensures ratio <= 0.0 ==> InitialBitmap(draws, ratio, total) == Zeros(total)
    ensures ratio >= 1.0 ==> InitialBitmap(draws, ratio, total) == seq(total, _ => 1)
  {
  }

  lemma ElementIn(s: seq<nat>, k: int)
    requires 0 <= k < |s|
    ensures s[k] in s
  {
  }

  /** Two strictly increasing lists with the same elements are equal. */
  lemma {:induction false} IncreasingWithSameElements(a: seq<nat>, b: seq<nat>)
    requires StrictlyIncreasing(a) && StrictlyIncreasing(b)
    requires forall v :: v in a <==> v in b
    ensures a == b
  {
    if a == [] {
      if b != [] {
        ElementIn(b, 0);
        assert false;
      }
    } else {
      assert b != [] by {
        assert a[0] in b;
      }
      assert a[0] == b[0] by {
        assert a[0] in b && b[0] in a;
      }
      forall v
        ensures v in a[1..] <==> v in b[1..]
      {
        assert v in a[1..] <==> v in a && v != a[0];
        assert v in b[1..] <==> v in b && v != b[0];
      }
      IncreasingWithSameElements(a[1..], b[1..]);
      assert a == [a[0]] + a[1..] && b == [b[0]] + b[1..];
    }
  }

  /** The alive-index list is determined by the draws and the ratio. */
  lemma AliveIndicesUnique(cells: seq<nat>, other: seq<nat>, draws: seq<real>, ratio: real, total: nat)
    requires |draws| >= total
    requires AliveIndices(cells, draws, ratio, total) && AliveIndices(other, draws, ratio, total)
    ensures cells == other
  {
    forall v
      ensures v in cells <==> v in other
    {
      if v in cells {
        var k :| 0 <= k < |cells| && cells[k] == v;
      }
      if v in other {
        var k :| 0 <= k < |other| && other[k] == v;
      }
    }
    IncreasingWithSameElements(cells, other);
  }

  /** With draws in [0, 1), a ratio of 0 or less lists no cell and a ratio of 1 or more lists every index in order. */
  lemma AliveIndicesExtremeRatios(cells: seq<nat>, draws: seq<real>, ratio: real, total: nat)
    requires |draws| >= total
    requires UnitDraws(draws, total)
    requires AliveIndices(cells, draws, ratio, total)
    ensures ratio <= 0.0 ==> cells == []
    ensures ratio >= 1.0 ==> cells == seq(total, i => i)
  {
    if ratio <= 0.0 && cells != [] {
      ElementIn(cells, 0);
      assert false;
    }
    if ratio >= 1.0 {
      var all: seq<nat> := seq(total, i => i);
      forall i | 0 <= i < total
        ensures i in all
      {
        assert all[i] == i;
      }
      AliveIndicesUnique(cells, all, draws, ratio, total);
    }
  }
}
