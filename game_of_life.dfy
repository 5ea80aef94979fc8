/** `nextGeneration`: validate the text, decode its body, step every cell
    once, and encode the result under the same header numbers. */
module GameOfLife {
  import opened Cells
  import opened Results
  import opened Codec
  import opened Validation
  import opened Neighbours
  import opened Step

  /** `nextGeneration`. Validation failures come back as the exception's
      message; on valid text the result is again valid text with the same
      header, and its body decodes to the stepped matrix of the input. */
  function NextGeneration(input: string): (r: Result<string>)
    ensures r.Failure? <==> ValidateInput(input).Fail?
    ensures r.Failure? ==> r.error == ValidateInput(input).message
    ensures r.Success? ==>
      && |r.value| == HeaderLength + GridRows * (GridColumns + 1)
      && r.value[..HeaderLength] == input[..HeaderLength]
      && ValidateInput(r.value) == Pass
      && IsRectangular(ConvertGridToArray(input[HeaderLength..]))
      && ConvertGridToArray(r.value[HeaderLength..])
         == NextGenerationArray(ConvertGridToArray(input[HeaderLength..]))
  {
    match ValidateInput(input)
    case Fail(message) => Failure(message)
    case Pass =>
      var firstNumber := DigitValue(input[0]);
      var secondNumber := DigitValue(input[2]);
      var grid := input[HeaderLength..];
      DecodeValidBody(grid);
      var cells := ConvertGridToArray(grid);
      var next := NextGenerationArray(cells);
      var output := ArrayToGrid(next, firstNumber, secondNumber);
      EncodedStepIsValid(input, next);
      Success(output)
  }

  /** A body that passes validation decodes to four rows of eight cells. */
  lemma DecodeValidBody(body: string)
    requires BodyOk(body)
    ensures var rows := ConvertGridToArray(body);
      |rows| == GridRows && AreGridRows(rows) && IsRectangular(rows)
  {
    var rows := RowsOf(body, GridRows);
    DecodeJoinRows(rows);
  }

  /** Four rows of eight cells under a valid header encode to valid text
      with that header, and decode back to the same rows. */
  lemma EncodedStepIsValid(input: string, next: seq<seq<char>>)
    requires HeaderOk(input)
    requires |next| == GridRows && forall y :: 0 <= y < |next| ==> |next[y]| == GridColumns
    requires forall y, x :: 0 <= y < |next| && 0 <= x < |next[y]| ==> IsCell(next[y][x])
    ensures var output := ArrayToGrid(next, DigitValue(input[0]), DigitValue(input[2]));
      && |output| == HeaderLength + GridRows * (GridColumns + 1)
      && output[..HeaderLength] == input[..HeaderLength]
      && ValidateInput(output) == Pass
      && ConvertGridToArray(output[HeaderLength..]) == next
  {
    DigitRoundTrip(input[0]);
    DigitRoundTrip(input[2]);
    var output := ArrayToGrid(next, DigitValue(input[0]), DigitValue(input[2]));
    assert Header(DigitValue(input[0]), DigitValue(input[2])) == input[..HeaderLength];
    assert output[HeaderLength..] == JoinRows(next);
    assert AreGridRows(next);
    JoinRowsMatch(next);
    DecodeJoinRows(next);
    JoinRowsLength(next, GridColumns);
  }

  /** In a valid body, the cell in column `x` of row `y` is the character at
      offset `9 * y + x` of the text: eight cells and a newline per row. */
  lemma DecodedCellIsTextCharacter(body: string, x: nat, y: nat)
    requires BodyOk(body) && x < GridColumns && y < GridRows
    ensures GridRows * (GridColumns + 1) <= |body|
    ensures var rows := ConvertGridToArray(body);
      InGrid(rows, x, y) && ValueAt(rows, x, y) == body[y * (GridColumns + 1) + x]
  {
    DecodeValidBody(body);
    var rows := RowsOf(body, GridRows);
    DecodeJoinRows(rows);
    JoinRowsLength(rows, GridColumns);
    JoinRowsAt(rows, GridColumns, x, y);
  }
}
