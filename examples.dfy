/** The worked examples of the repository's own tests, proved about the
    model: validation messages, decoding, encoding, neighbour lists, counts
    and the rule at single cells. */
module Examples {
  import opened Cells
  import opened Results
  import opened Codec
  import opened Validation
  import opened Neighbours
  import opened Step
  import opened GameOfLife

  const ValidArray: seq<seq<char>> := ["........", "....*...", "...**...", "........"]
  const ValidArray2: seq<seq<char>> := ["........", ".****...", "...**...", "........"]
  const ValidGrid: string := "........\n....*...\n...**...\n........\n"
  const ValidGrid2: string := "........\n.****...\n...**...\n........\n"

  /** `'abc'` has no header. */
  lemma RejectsMissingHeader()
    ensures ValidateInput("abc") == Fail(HeaderMessage)
  {
  }

  /** A header followed by one short line is rejected with the sizes taken
      from the header, columns first. */
  lemma RejectsShortBody()
    ensures ValidateInput("4 8\n..........") == Fail(GridMessagePrefix + "8 x 4")
  {
    var s := "4 8\n..........";
    GridFailure(s);
    assert GridMessageText(s[2], s[0]) == GridMessagePrefix + "8 x 4";
    assert !RowAt(s[HeaderLength..][GridColumns + 1..]);
  }

  /** The body size is fixed at four by eight: a two-by-two grid under a
      `"2 2"` header is rejected although it matches its header. */
  lemma RejectsGridOtherThanFourByEight()
    ensures ValidateInput("2 2\n..\n..\n") == Fail(GridMessagePrefix + "2 x 2")
  {
    var s := "2 2\n..\n..\n";
    GridFailure(s);
    assert GridMessageText(s[2], s[0]) == GridMessagePrefix + "2 x 2";
    assert !RowAt(s[HeaderLength..]);
  }

  /** The test array, encoded, is the test grid. */
  lemma JoinsValidArray()
    ensures JoinRows(ValidArray) == ValidGrid
  {
    var a := ValidArray;
    assert a[..1][..0] == [] && a[..2][..1] == a[..1] && a[..3][..2] == a[..2];
    assert a[..4][..3] == a[..3] && a[..4] == a;
    assert JoinRows(a[..1]) == "........\n";
    assert JoinRows(a[..2]) == "........\n....*...\n";
    assert JoinRows(a[..3]) == "........\n....*...\n...**...\n";
  }

  /** The decoded test grid is the test array. */
  lemma ConvertsValidGrid()
    ensures ConvertGridToArray(ValidGrid) == ValidArray
  {
    JoinsValidArray();
    DecodeJoinRows(ValidArray);
  }

  /** The test array encodes to the test input. */
  lemma EncodesValidArray()
    ensures ArrayToGrid(ValidArray, 4, 8) == "4 8\n" + ValidGrid
  {
    JoinsValidArray();
    assert DigitChar(4) == '4' && DigitChar(8) == '8';
    assert Header(4, 8) == "4 8\n";
  }

  /** The second test array, encoded, is the second test grid. */
  lemma JoinsValidArray2()
    ensures JoinRows(ValidArray2) == ValidGrid2
  {
    var a := ValidArray2;
    assert a[..1][..0] == [] && a[..2][..1] == a[..1] && a[..3][..2] == a[..2];
    assert a[..4][..3] == a[..3] && a[..4] == a;
    assert JoinRows(a[..1]) == "........\n";
    assert JoinRows(a[..2]) == "........\n.****...\n";
    assert JoinRows(a[..3]) == "........\n.****...\n...**...\n";
  }

  /** The second test array encodes to the second test input. */
  lemma EncodesValidArray2()
    ensures ArrayToGrid(ValidArray2, 4, 8) == "4 8\n" + ValidGrid2
  {
    JoinsValidArray2();
    assert DigitChar(4) == '4' && DigitChar(8) == '8';
    assert Header(4, 8) == "4 8\n";
  }

  /** Every row of the test array is eight cells. */
  lemma ValidArrayHasGridRows()
    ensures AreGridRows(ValidArray)
  {
    var g := ValidArray;
    assert g[0] == "........" && g[1] == "....*..." && g[2] == "...**..." && g[3] == "........";
    assert IsGridRow(g[0]) && IsGridRow(g[1]) && IsGridRow(g[2]) && IsGridRow(g[3]);
  }

  /** The test input passes validation, so the pipeline does not fail on it. */
  lemma AcceptsValidInput()
    ensures ValidateInput("4 8\n" + ValidGrid) == Pass
    ensures NextGeneration("4 8\n" + ValidGrid).Success?
  {
    var s := "4 8\n" + ValidGrid;
    JoinsValidArray();
    ValidArrayHasGridRows();
    JoinRowsMatch(ValidArray);
    assert s[HeaderLength..] == ValidGrid;
    assert HeaderOk(s);
  }

  /** Columns are read first and rows second. */
  lemma ReadsColumnThenRow()
    ensures ValueAt(ValidArray, 0, 0) == Dead
    ensures ValueAt(ValidArray, 1, 0) == Dead
    ensures ValueAt(ValidArray, 4, 1) == Alive
    ensures ValueAt(ValidArray, 7, 3) == Dead
  {
  }

  /** A location with no negative coordinate is kept; a negative column or
      a negative row gives no location. */
  lemma GeneratesLocations()
    ensures GenerateLocation(1, 1) == At(1, 1)
    ensures GenerateLocation(-1, 1) == None
    ensures GenerateLocation(1, -1) == None
  {
  }

  /** Away from the edges all eight neighbours are listed, clockwise from
      the upper left. */
  lemma InteriorNeighbours(g: seq<seq<char>>)
    requires |g| == 4 && IsRectangular(g) && |g[0]| == 8
    ensures GenerateNeighborLocations(g, 2, 2)
         == [At(1, 1), At(2, 1), At(3, 1), At(3, 2), At(3, 3), At(2, 3), At(1, 3), At(1, 2)]
  {
  }

  /** In the upper-left corner only three neighbours exist. */
  lemma CornerNeighbours(g: seq<seq<char>>)
    requires |g| == 4 && IsRectangular(g) && |g[0]| == 8
    ensures GenerateNeighborLocations(g, 0, 0)
         == [None, None, None, At(1, 0), At(1, 1), At(0, 1), None, None]
  {
  }

  /** On the top edge five neighbours exist. */
  lemma TopEdgeNeighbours(g: seq<seq<char>>)
    requires |g| == 4 && IsRectangular(g) && |g[0]| == 8
    ensures GenerateNeighborLocations(g, 1, 0)
         == [None, None, None, At(2, 0), At(2, 1), At(1, 1), At(0, 1), At(0, 0)]
  {
  }

  /** The upper-left corner of the test array has no live neighbour. */
  lemma CornerCount()
    ensures AliveNeighborCount(ValidArray, 0, 0) == 0
  {
    var g := ValidArray;
    assert g[0] == "........" && g[1] == "....*..." && g[2] == "...**..." && g[3] == "........";
    AliveNeighborCountIsLiveNeighbours(g, 0, 0);
  }

  /** A dead cell with three live neighbours is born. */
  lemma BornWithThree()
    ensures AliveNeighborCount(ValidArray, 3, 1) == 3
    ensures NextGenerationAtPoint(ValidArray, 3, 1) == Alive
  {
    var g := ValidArray;
    assert g[0] == "........" && g[1] == "....*..." && g[2] == "...**..." && g[3] == "........";
    assert AliveAt(g, 2, 0) + AliveAt(g, 3, 0) + AliveAt(g, 4, 0) == 0;
    assert AliveAt(g, 2, 1) + AliveAt(g, 4, 1) == 1;
    assert AliveAt(g, 2, 2) + AliveAt(g, 3, 2) + AliveAt(g, 4, 2) == 2;
    assert LiveNeighbours(g, 3, 1) == 3;
    AliveNeighborCountIsLiveNeighbours(g, 3, 1);
  }

  /** A live cell with two live neighbours stays alive. */
  lemma SurvivesWithTwo()
    ensures AliveNeighborCount(ValidArray, 4, 1) == 2
    ensures NextGenerationAtPoint(ValidArray, 4, 1) == Alive
  {
    var g := ValidArray;
    assert g[0] == "........" && g[1] == "....*..." && g[2] == "...**..." && g[3] == "........";
    assert LiveNeighbours(g, 4, 1) == 2;
    AliveNeighborCountIsLiveNeighbours(g, 4, 1);
  }

  /** A dead cell with two live neighbours stays dead. */
  lemma StaysDeadWithTwo()
    ensures NextGenerationAtPoint(ValidArray, 5, 1) == Dead
  {
    var g := ValidArray;
    assert g[0] == "........" && g[1] == "....*..." && g[2] == "...**..." && g[3] == "........";
    assert LiveNeighbours(g, 5, 1) == 2;
  }

  /** A live cell with more than three live neighbours dies. */
  lemma DiesOfOvercrowding()
    ensures NextGenerationAtPoint(ValidArray2, 3, 1) == Dead
  {
    var g := ValidArray2;
    assert g[0] == "........" && g[1] == ".****..." && g[2] == "...**..." && g[3] == "........";
    assert LiveNeighbours(g, 3, 1) == 4;
  }

  /** A live cell with fewer than two live neighbours dies. */
  lemma DiesOfIsolation()
    ensures NextGenerationAtPoint(ValidArray2, 1, 1) == Dead
  {
    var g := ValidArray2;
    assert g[0] == "........" && g[1] == ".****..." && g[2] == "...**..." && g[3] == "........";
    assert LiveNeighbours(g, 1, 1) == 1;
  }
}
