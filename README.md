# Game of Life step, modelled in Dafny

This project models `GameOfLife.nextGeneration`, which computes one
generation of Conway's Game of Life on a grid written as text. The text is
a header `"R C\n"` (one digit of rows, a space, one digit of columns),
followed by the rows of the grid. Each row is a line of `*` (alive) and `.`
(dead) cells. The model covers the whole pipeline: validation, decoding
into a matrix of cells, the neighbour list and count of each cell, the
B3/S23 rule applied to every cell against the original matrix, and
encoding back into text.

Everything in the source is pure, so the model is made of functions and
lemmas:

- `Results`: the failure values that stand for Ruby's `raise`.
- `Cells`: cell symbols, digits, `to_i` on one digit, and `to_s` on a
  natural number.
- `Validation`: the header pattern `\A[0-9] [0-9]\n` and the body pattern
  `\A(?:[\.\*]{8}\n){4}\Z`, written as character predicates, and
  `validateInput` with its two messages.
- `Codec`: `convertGridToArray` (Ruby's `split("\n")`, which drops trailing
  empty fields) and `arrayToGrid`, with their round trip.
- `Neighbours`: `generateLocation`, `generateNeighborLocations`, `valueAt`
  and `aliveNeighborCount`. They are related to the plain Moore-neighbourhood
  count `LiveNeighbours`.
- `Step`: `nextGenerationAtPoint` and `nextGenerationArray`.
- `GameOfLife`: `nextGeneration` and what it guarantees on valid text.
- `Examples`: the concrete cases of `spec/game_of_life_spec.rb`.

A cell is a Dafny `char`. In Ruby it is a one-character string. A line is
the sequence of its characters, so the `row.split("")` inside
`convertGridToArray` is the identity here.

Three behaviours of the code are easy to miss, and the model keeps them:

- The body check hard-codes four lines of eight cells. It does not use the
  header's numbers. The message still names them, columns first.
  `Examples.RejectsGridOtherThanFourByEight` shows a `2 2` grid being
  rejected with the message "... that are 2 x 2".
- `\Z` also accepts one newline after the last line, so a body may end in
  two newlines.
- The row below and the column to the right are dropped according to where
  the source cell stands, not according to where the neighbour falls. For a
  cell of a rectangular grid this is the same as a bounds check
  (`NeighborLocationsAreBoundsChecked`). For a position off the grid it is
  not (`EdgeSuppressionFollowsSource`).

## Model

| member | source | states |
|---|---|---|
| Cells.Decimal | lib/game_of_life.rb:100 | `Integer#to_s` gives the decimal digits of `n`, with no leading zero unless `n` is zero. They are a single digit exactly when `n < 10`, and reading them back gives `n`. |
| Cells.DigitValue | lib/game_of_life.rb:5-6 | `to_i` of a one-digit string is below ten. `DigitRoundTrip` states that it is the digit's value. |
| Cells.DigitRoundTrip | lib/game_of_life.rb:5-6 | A header digit read with `to_i` and written with `to_s` is the same character. |
| Validation.HeaderOk | lib/game_of_life.rb:18 | The header pattern `\A[0-9] [0-9]\n`: digit, space, digit, newline at the start. `HeaderFailure` states its role in validation. |
| Validation.RowsMatch | lib/game_of_life.rb:32 | `n` repetitions of eight cells and a newline, then the end of the text or one final newline. `RowsOf` and `JoinRowsMatch` state what it accepts. |
| Validation.BodyOk | lib/game_of_life.rb:32 | The body pattern `\A(?:[\.\*]{8}\n){4}\Z`. `BodyOkIsFourLinesOfEight` states what it accepts. |
| Validation.GridMessage | lib/game_of_life.rb:33 | The grid message names the columns, then the rows. `GridFailure` states when it is raised, and `GridMessageDiffers` that it is not the header message. |
| Validation.ValidateInput | lib/game_of_life.rb:22-35 | `validateInput`. `HeaderFailure` and `GridFailure` state both directions of each failure and when it passes. |
| Validation.HeaderFailure | lib/game_of_life.rb:18-25 | Validation fails with "Expected two numbers separated by a space at the beginning" exactly when the text does not start with digit, space, digit, newline. |
| Validation.GridFailure | lib/game_of_life.rb:27-34 | With a good header, validation fails with "Expected array of dots (.) and stars (*) that are {input[2]} x {input[0]}" exactly when the body check fails. Otherwise it passes. |
| Validation.BodyOkIsFourLinesOfEight | lib/game_of_life.rb:32 | The body check passes exactly when the text after the header is four newline-terminated lines of eight `.`/`*` cells, optionally followed by one more newline. |
| Validation.BodyCheckIgnoresHeader | lib/game_of_life.rb:27-34 | Two texts with good headers and the same body pass or fail validation together, whatever their header digits. |
| Validation.RowsOf | lib/game_of_life.rb:32 | A body that matches `n` repetitions of the line pattern is the encoding of `n` rows of eight cells, optionally followed by one newline. |
| Validation.JoinRowsMatch | lib/game_of_life.rb:32 | Encoded rows of eight cells match the line pattern, with or without one extra final newline. |
| Codec.Fields | lib/game_of_life.rb:38 | Splitting on newlines gives at least one field, and no field contains a newline. |
| Codec.UnfieldsFields | lib/game_of_life.rb:38 | Joining the fields with newlines gives back the original text, so nothing is lost by the split. |
| Codec.DropTrailingEmpty | lib/game_of_life.rb:38 | `split` keeps a prefix of the fields, ending in a non-empty field or nothing. Every field it removes is empty. |
| Codec.ConvertGridToArray | lib/game_of_life.rb:37-40 | Decoded rows contain no newline, and the last row is not empty. |
| Codec.FieldsConcat | lib/game_of_life.rb:38 | The fields of `a + b` are those of `a` and `b`, with the last field of `a` glued to the first field of `b`. |
| Codec.FieldsOfJoinRows | lib/game_of_life.rb:38 | Splitting encoded newline-free rows gives the rows plus one trailing empty field. |
| Codec.DecodeJoinRows | lib/game_of_life.rb:37-40 | Decoding encoded non-empty lines gives the same lines, with or without one extra final newline. |
| Codec.EncodeDecodeRoundTrip | lib/game_of_life.rb:99-105 | Encoding a decoded body gives `"{h} {w}\n"` followed by the original body, when the body is made of non-empty newline-terminated lines. |
| Codec.Header | lib/game_of_life.rb:100 | The header `"{height} {width}\n"`. `EncodedStepIsValid` states that it gives back a valid header's own text. |
| Codec.ArrayToGrid | lib/game_of_life.rb:99-105 | `arrayToGrid`. `EncodeDecodeRoundTrip` states that it inverts `convertGridToArray`, and `EncodedStepIsValid` that its output passes validation. |
| Codec.JoinRows | lib/game_of_life.rb:100-104 | The encoded rows are empty or end in a newline. |
| Codec.JoinRowsCons | lib/game_of_life.rb:100-104 | The left fold of the encoder, read from the front: the first row, its newline, then the rest encoded. |
| Neighbours.GenerateLocation | lib/game_of_life.rb:86-89 | A location is `nil` exactly when a coordinate is negative. Otherwise it is `[x, y]`. |
| Neighbours.GenerateNeighborLocations | lib/game_of_life.rb:68-84 | There are always exactly eight entries. |
| Neighbours.NeighborLocationsAreBoundsChecked | lib/game_of_life.rb:68-84 | For a cell of a rectangular grid, entry `i` is the `i`-th clockwise position from the upper left if that position is on the grid, and `nil` otherwise. |
| Neighbours.NeighborLocationsAreDistinctNeighbours | lib/game_of_life.rb:68-89 | For a cell of a rectangular grid, every listed location is on the grid, adjacent to the cell and different from it, and no location is listed twice. |
| Neighbours.EdgeSuppressionFollowsSource | lib/game_of_life.rb:71-72 | The lower and right entries are `nil` when the source cell is on the last row or in the last column. They are listed when it is not, even off the grid. |
| Neighbours.ValueAt | lib/game_of_life.rb:64-66 | `valueAt` reads column `x` of row `y`. `DecodedCellIsTextCharacter` states which character of the text that is. |
| Neighbours.LiveAt | lib/game_of_life.rb:56-60 | One step of the count's `reduce`: one for a location naming a live cell, zero for `nil` or a dead cell. `AliveNeighborCountIsLiveNeighbours` states the total. |
| Neighbours.CountAlive | lib/game_of_life.rb:55-61 | The fold counts at most one per location. |
| Neighbours.AliveNeighborCount | lib/game_of_life.rb:52-62 | The count lies in 0..8. |
| Neighbours.AliveNeighborCountIsLiveNeighbours | lib/game_of_life.rb:52-62 | The count is the number of live cells among the eight surrounding positions on the grid. |
| Step.NextGenerationAtPoint | lib/game_of_life.rb:42-50 | The new cell is `*` or `.`. Three live neighbours give `*`. Two keep the cell's state. Fewer than two or more than three give `.`. |
| Step.NextGenerationArray | lib/game_of_life.rb:91-97 | The row count and every row length are kept. Every new cell follows B3/S23, computed from the original matrix only. |
| Step.NextGenerationIsLocal | lib/game_of_life.rb:91-97 | A new cell depends only on the 3x3 window around it in the original matrix. |
| GameOfLife.NextGeneration | lib/game_of_life.rb:2-15 | It fails exactly when validation fails, with the same message. On valid text, the output has the input's header and is 40 characters long. The output passes validation, and its body decodes to the stepped matrix of the input. |
| GameOfLife.DecodeValidBody | lib/game_of_life.rb:8-10 | A validated body decodes to a rectangular matrix of four rows of eight cells. |
| GameOfLife.EncodedStepIsValid | lib/game_of_life.rb:12-14 | Four rows of eight cells, encoded under a valid header's own numbers, give valid text with that header. That text decodes back to the same rows. |
| GameOfLife.DecodedCellIsTextCharacter | lib/game_of_life.rb:64-66 | In a validated body, `valueAt(x, y)` is the character at offset `9*y + x`, so `x` is the column and `y` is the row. |
| Codec.JoinRowsLength | lib/game_of_life.rb:99-105 | Each row of `width` cells takes `width + 1` characters once encoded. |
| Codec.JoinRowsAt | lib/game_of_life.rb:99-105 | Character `y*(width+1) + x` of encoded rows of `width` cells is cell `x` of row `y`. |
| Examples.RejectsMissingHeader | spec/game_of_life_spec.rb:89-91 | `'abc'` fails with the header message. |
| Examples.RejectsShortBody | spec/game_of_life_spec.rb:93-95 | `"4 8\n.........."` fails with "... that are 8 x 4". |
| Examples.RejectsGridOtherThanFourByEight | lib/game_of_life.rb:32 | A well-formed 2x2 grid under a `2 2` header is rejected with "... that are 2 x 2". |
| Examples.JoinsValidArray | spec/game_of_life_spec.rb:4-8 | The test array, encoded, is the test grid text. |
| Examples.ConvertsValidGrid | spec/game_of_life_spec.rb:98-101 | The test grid decodes to the test array. |
| Examples.EncodesValidArray | spec/game_of_life_spec.rb:216 | The test array encodes under `4 8` to the test input. |
| Examples.JoinsValidArray2 | spec/game_of_life_spec.rb:10-15 | The second test array, encoded, is the body of the second test input. |
| Examples.EncodesValidArray2 | spec/game_of_life_spec.rb:217 | The second test array encodes under `4 8` to the second test input. |
| Examples.AcceptsValidInput | spec/game_of_life_spec.rb:70-72 | The test input passes validation, and `nextGeneration` does not fail on it. |
| Examples.ReadsColumnThenRow | spec/game_of_life_spec.rb:134-150 | `valueAt` of the test array at (0,0), (1,0), (4,1) and (7,3). |
| Examples.GeneratesLocations | spec/game_of_life_spec.rb:193-205 | `generateLocation(1, 1)` is `[1, 1]`; `(-1, 1)` and `(1, -1)` give `nil`. |
| Examples.InteriorNeighbours | spec/game_of_life_spec.rb:153-164 | Cell (2,2) of any 4x8 grid has all eight neighbours, clockwise from the upper left. |
| Examples.CornerNeighbours | spec/game_of_life_spec.rb:166-177 | Cell (0,0) has three neighbours and five `nil`s. |
| Examples.TopEdgeNeighbours | spec/game_of_life_spec.rb:179-190 | Cell (1,0) has five neighbours and three `nil`s. |
| Examples.CornerCount | spec/game_of_life_spec.rb:126-128 | The upper-left corner of the test array has no live neighbour. |
| Examples.BornWithThree | spec/game_of_life_spec.rb:105-107 | A dead cell with three live neighbours is born. |
| Examples.SurvivesWithTwo | spec/game_of_life_spec.rb:109-111 | A live cell with two live neighbours stays alive. |
| Examples.StaysDeadWithTwo | spec/game_of_life_spec.rb:113-115 | A dead cell with two live neighbours stays dead. |
| Examples.DiesOfOvercrowding | spec/game_of_life_spec.rb:117-119 | A live cell with four live neighbours dies. |
| Examples.DiesOfIsolation | spec/game_of_life_spec.rb:121-123 | A live cell with one live neighbour dies. |

## Left out

- The regular-expression engine is not modelled. Only the two fixed patterns are, as character predicates, including the one final newline that `\Z` allows.
- Exceptions are failure values that carry the message, not control flow. A `validateInput` that returns normally is `Pass`.
- Neighbour counts and `valueAt` require a rectangular matrix and a source cell on it. On ragged arrays Ruby would read `nil` past the end of a short row, or fail on `nil`. Every matrix reaching them through `nextGeneration` is four rows of eight.
- `generateNeighborLocations` on an empty array is not modelled. Ruby would fail on `nil.length` there, and the step never calls it for an empty array.
- ArrayToGrid: its numbers are natural numbers. `to_s` of a negative number, and cells that are strings longer than one character, are not modelled. `nextGeneration` only passes single digits and one-character cells.
- The full test cases `nextGeneration(validInput) == validOutput` and `nextGenerationArray(validArray) == outputArray`, with their second inputs, are not proved as concrete computations. Evaluating all 32 cells of a concrete grid in one proof is beyond the solver's budget. The rule is proved for every cell in general (`Step.NextGenerationArray`), and for the tested cells individually (`Examples`).
