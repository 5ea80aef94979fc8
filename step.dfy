/** One generation step over the matrix of cells (`nextGenerationAtPoint`,
    `nextGenerationArray`). */
module Step {
  import opened Cells
  import opened Neighbours

  /** The rule of Conway's Game of Life (B3/S23): a dead cell is born with
      exactly three live neighbours, a live cell survives with two or three. */
  predicate BornOrSurvives(alive: bool, neighbours: nat) {
    if alive then neighbours == 2 || neighbours == 3 else neighbours == 3
  }

  /** `nextGenerationAtPoint`: a cell with three live neighbours is born or
      stays alive, a live cell with two stays alive, every other cell is dead. */
  function NextGenerationAtPoint(g: seq<seq<char>>, x: nat, y: nat): (c: char)
    requires IsRectangular(g) && InGrid(g, x, y)
    ensures c == Alive || c == Dead
    ensures LiveNeighbours(g, x, y) == 3 ==> c == Alive
    ensures LiveNeighbours(g, x, y) == 2 ==> (c == Alive <==> g[y][x] == Alive)
    ensures LiveNeighbours(g, x, y) < 2 || LiveNeighbours(g, x, y) > 3 ==> c == Dead
  {
    AliveNeighborCountIsLiveNeighbours(g, x, y);
    var count := AliveNeighborCount(g, x, y);
    if count == 3 || (count == 2 && ValueAt(g, x, y) == Alive) then Alive else Dead
  }

  /** `nextGenerationArray`: a new matrix of the same shape, every cell of
      which is computed from the original matrix alone. */
  function NextGenerationArray(g: seq<seq<char>>): (r: seq<seq<char>>)
    requires IsRectangular(g)
    ensures |r| == |g| && IsRectangular(r)
    ensures forall y :: 0 <= y < |g| ==> |r[y]| == |g[y]|
    ensures forall y, x :: 0 <= y < |g| && 0 <= x < |g[y]| ==>
      r[y][x] == if BornOrSurvives(g[y][x] == Alive, LiveNeighbours(g, x, y)) then Alive else Dead
  {
    seq(|g|, y requires 0 <= y < |g| =>
      seq(|g[y]|, x requires 0 <= x < |g[y]| => NextGenerationAtPoint(g, x, y)))
  }

  /** The new value of a cell depends only on the cell and its eight
      surrounding positions in the original matrix. */
  lemma NextGenerationIsLocal(g: seq<seq<char>>, h: seq<seq<char>>, x: nat, y: nat)
    requires IsRectangular(g) && IsRectangular(h) && |g| == |h|
    requires forall k :: 0 <= k < |g| ==> |g[k]| == |h[k]|
    requires InGrid(g, x, y)
    requires forall a, b :: x - 1 <= a <= x + 1 && y - 1 <= b <= y + 1 && InGrid(g, a, b) ==>
      g[b][a] == h[b][a]
    ensures NextGenerationArray(g)[y][x] == NextGenerationArray(h)[y][x]
  {
    assert LiveNeighbours(g, x, y) == LiveNeighbours(h, x, y);
  }
}
