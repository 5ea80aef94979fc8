/** The eight neighbour locations of a cell and the count of live cells
    among them (`generateLocation`, `generateNeighborLocations`, `valueAt`,
    `aliveNeighborCount`). */
module Neighbours {
  import opened Cells

  /** A neighbour location: `None` is Ruby's `nil`, `At(x, y)` the pair
      `[x, y]` of a column and a row. */
  datatype Location = None | At(x: nat, y: nat)

  /** `generateLocation`: no location when either coordinate is negative. */
  function GenerateLocation(x: int, y: int): (r: Location)
    ensures r == None <==> x < 0 || y < 0
    ensures r.At? ==> r.x == x && r.y == y
  {
    if x < 0 || y < 0 then None else At(x, y)
  }

  /** `generateNeighborLocations`: clockwise from the upper left. The row
      below and the column to the right are set to -1 when the cell itself
      is on the last row or in the last column of the first row. */
  function GenerateNeighborLocations(g: seq<seq<char>>, x: int, y: int): (r: seq<Location>)
    requires |g| > 0
    ensures |r| == 8
  {
    var top := y - 1;
    var left := x - 1;
    var bottom := if y == |g| - 1 then -1 else y + 1;
    var right := if x == |g[0]| - 1 then -1 else x + 1;
    [ GenerateLocation(left, top), GenerateLocation(x, top), GenerateLocation(right, top),
      GenerateLocation(right, y), GenerateLocation(right, bottom), GenerateLocation(x, bottom),
      GenerateLocation(left, bottom), GenerateLocation(left, y) ]
  }

  /** Column and row offsets of the eight neighbours, clockwise from the
      upper left: upper left, up, upper right, right, lower right, down,
      lower left, left. */
  const ClockwiseDx: seq<int> := [-1, 0, 1, 1, 1, 0, -1, -1]
  const ClockwiseDy: seq<int> := [-1, -1, -1, 0, 1, 1, 1, 0]

  /** The location of column `x`, row `y` if that is a cell of `g`. */
  function Clip(g: seq<seq<char>>, x: int, y: int): Location {
    if InGrid(g, x, y) then At(x, y) else None
  }

  /** For a cell of a rectangular grid the neighbour list is a plain bounds
      check of the eight surrounding positions, in clockwise order. */
  lemma NeighborLocationsAreBoundsChecked(g: seq<seq<char>>, x: int, y: int)
    requires IsRectangular(g) && InGrid(g, x, y)
    ensures forall i :: 0 <= i < 8 ==>
      GenerateNeighborLocations(g, x, y)[i] == Clip(g, x + ClockwiseDx[i], y + ClockwiseDy[i])
  {
    ClockwiseBoundsCheck(g, x, y);
  }

  /** The bounds check of `NeighborLocationsAreBoundsChecked`, position by position. */
  lemma ClockwiseBoundsCheck(g: seq<seq<char>>, x: int, y: int)
    requires IsRectangular(g) && InGrid(g, x, y)
    ensures GenerateNeighborLocations(g, x, y)
         == [ Clip(g, x - 1, y - 1), Clip(g, x, y - 1), Clip(g, x + 1, y - 1), Clip(g, x + 1, y),
              Clip(g, x + 1, y + 1), Clip(g, x, y + 1), Clip(g, x - 1, y + 1), Clip(g, x - 1, y) ]
  {
  }

  /** Every location listed for a cell of a rectangular grid is a cell of
      the grid, next to the cell and not the cell itself, and no location is
      listed twice. */
  lemma NeighborLocationsAreDistinctNeighbours(g: seq<seq<char>>, x: int, y: int)
    requires IsRectangular(g) && InGrid(g, x, y)
    ensures var r := GenerateNeighborLocations(g, x, y);
      && (forall i :: 0 <= i < 8 && r[i].At? ==>
            InGrid(g, r[i].x, r[i].y) && r[i] != At(x, y)
            && -1 <= r[i].x - x <= 1 && -1 <= r[i].y - y <= 1)
      && (forall i, j :: 0 <= i < j < 8 && r[i].At? ==> r[i] != r[j])
  {
    ClockwiseBoundsCheck(g, x, y);
  }

  /** The row below and the column to the right are dropped according to
      where the cell itself stands, not where the neighbour would fall: they
      vanish for a cell on the last row or in the last column, and are
      listed even off the grid for a cell past those edges. */
  lemma EdgeSuppressionFollowsSource(g: seq<seq<char>>, x: int, y: int)
    requires |g| > 0
    ensures var r := GenerateNeighborLocations(g, x, y);
      && (y == |g| - 1 ==> r[4] == None && r[5] == None && r[6] == None)
      && (x == |g[0]| - 1 ==> r[2] == None && r[3] == None && r[4] == None)
      && (0 <= x && 0 <= y && y != |g| - 1 ==> r[5] == At(x, y + 1))
      && (0 <= x && 0 <= y && x != |g[0]| - 1 ==> r[3] == At(x + 1, y))
  {
  }

  /** `valueAt`: `x` is the column and `y` the row. */
  function ValueAt(g: seq<seq<char>>, x: nat, y: nat): char
    requires InGrid(g, x, y)
  {
    g[y][x]
  }

  /** Every listed location is a cell of `g`. */
  predicate LocationsInGrid(g: seq<seq<char>>, locations: seq<Location>) {
    forall k :: 0 <= k < |locations| && locations[k].At? ==>
      InGrid(g, locations[k].x, locations[k].y)
  }

  /** What one location adds to the count: one if it names a live cell. */
  function LiveAt(g: seq<seq<char>>, location: Location): nat
    requires location.At? ==> InGrid(g, location.x, location.y)
  {
    if location.At? && ValueAt(g, location.x, location.y) == Alive then 1 else 0
  }

  /** The `reduce` of `aliveNeighborCount`, folded from the left: how many
      locations name a live cell. */
  function CountAlive(g: seq<seq<char>>, locations: seq<Location>): (n: nat)
    requires LocationsInGrid(g, locations)
    ensures n <= |locations|
  {
    if locations == [] then 0
    else
      var last := locations[|locations| - 1];
      CountAlive(g, locations[..|locations| - 1]) + LiveAt(g, last)
  }

  /** `aliveNeighborCount`: the live cells among the neighbour locations. */
  function AliveNeighborCount(g: seq<seq<char>>, x: nat, y: nat): (n: nat)
    requires IsRectangular(g) && InGrid(g, x, y)
    ensures n <= 8
  {
    ClockwiseBoundsCheck(g, x, y);
    CountAlive(g, GenerateNeighborLocations(g, x, y))
  }

  /** One if column `x` of row `y` is a live cell of `g`, zero otherwise,
      including off the grid. */
  function AliveAt(g: seq<seq<char>>, x: int, y: int): nat {
    if InGrid(g, x, y) && g[y][x] == Alive then 1 else 0
  }

  /** The number of live cells among the eight surrounding positions, taken
      row by row: the neighbour count of the Game of Life. */
  function LiveNeighbours(g: seq<seq<char>>, x: int, y: int): nat {
      AliveAt(g, x - 1, y - 1) + AliveAt(g, x, y - 1) + AliveAt(g, x + 1, y - 1)
    + AliveAt(g, x - 1, y)                          + AliveAt(g, x + 1, y)
    + AliveAt(g, x - 1, y + 1) + AliveAt(g, x, y + 1) + AliveAt(g, x + 1, y + 1)
  }

  /** The clockwise count of `aliveNeighborCount` is the Game of Life's
      neighbour count. */
  lemma AliveNeighborCountIsLiveNeighbours(g: seq<seq<char>>, x: nat, y: nat)
    requires IsRectangular(g) && InGrid(g, x, y)
    ensures AliveNeighborCount(g, x, y) == LiveNeighbours(g, x, y)
  {
    var r := GenerateNeighborLocations(g, x, y);
    ClockwiseBoundsCheck(g, x, y);
    LiveAtClip(g, x - 1, y - 1);
    LiveAtClip(g, x, y - 1);
    LiveAtClip(g, x + 1, y - 1);
    LiveAtClip(g, x + 1, y);
    LiveAtClip(g, x + 1, y + 1);
    LiveAtClip(g, x, y + 1);
    LiveAtClip(g, x - 1, y + 1);
    LiveAtClip(g, x - 1, y);
    CountAliveEight(g, r);
  }

  /** A bounds-checked position adds one to the count exactly when it holds
      a live cell. */
  lemma LiveAtClip(g: seq<seq<char>>, x: int, y: int)
    ensures LiveAt(g, Clip(g, x, y)) == AliveAt(g, x, y)
  {
  }

  /** The fold over eight locations, written out. */
  lemma CountAliveEight(g: seq<seq<char>>, r: seq<Location>)
    requires |r| == 8 && LocationsInGrid(g, r)
    ensures CountAlive(g, r) == LiveAt(g, r[0]) + LiveAt(g, r[1]) + LiveAt(g, r[2]) + LiveAt(g, r[3])
                              + LiveAt(g, r[4]) + LiveAt(g, r[5]) + LiveAt(g, r[6]) + LiveAt(g, r[7])
  {
    CountAlivePrefix(g, r, 0);
    CountAlivePrefix(g, r, 1);
    CountAlivePrefix(g, r, 2);
    CountAlivePrefix(g, r, 3);
    CountAlivePrefix(g, r, 4);
    CountAlivePrefix(g, r, 5);
    CountAlivePrefix(g, r, 6);
    CountAlivePrefix(g, r, 7);
    assert r[..0] == [];
    assert r[..8] == r;
  }

  /** One more location extends the fold by what that location adds. */
  lemma CountAlivePrefix(g: seq<seq<char>>, r: seq<Location>, k: nat)
    requires k < |r| && LocationsInGrid(g, r)
    ensures LocationsInGrid(g, r[..k]) && LocationsInGrid(g, r[..k + 1])
    ensures CountAlive(g, r[..k + 1]) == CountAlive(g, r[..k]) + LiveAt(g, r[k])
  {
    assert r[..k + 1][..k] == r[..k];
  }
}
