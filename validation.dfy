/** `validateInput`: the header check and the grid-body check, with the
    two patterns of the source written as character predicates. */
module Validation {
  import opened Cells
  import opened Results
  import opened Codec

  /** The body pattern hard-codes the grid size, whatever the header says. */
  const GridRows: nat := 4
  const GridColumns: nat := 8

  /** The header `"d d\n"` is always four characters long. */
  const HeaderLength: nat := 4

  /** The two messages are each written as two literals: the verifier does
      not look inside a string literal this long, and the proof that the
      messages differ reads their characters. */
  const HeaderMessage: string := "Expected two numbers " + "separated by a space at the beginning"

  const GridMessagePrefix: string := "Expected array of dots (.) " + "and stars (*) that are "

  /** The message for a malformed body: columns first, then rows. */
  function GridMessage(columns: nat, rows: nat): string {
    GridMessagePrefix + Decimal(columns) + " x " + Decimal(rows)
  }

  /** `\A[0-9] [0-9]\n`: digit, space, digit, newline at the very start. */
  predicate HeaderOk(s: string) {
    |s| >= HeaderLength && IsDigit(s[0]) && s[1] == ' ' && IsDigit(s[2]) && s[3] == '\n'
  }

  /** `\Z`: the end of the text, or a newline that ends it. */
  predicate AtEnd(s: string) {
    s == [] || s == "\n"
  }

  /** `[\.\*]{8}\n` at the start of `s`. */
  predicate RowAt(s: string) {
    |s| > GridColumns
    && (forall i :: 0 <= i < GridColumns ==> IsCell(s[i]))
    && s[GridColumns] == '\n'
  }

  /** `(?:[\.\*]{8}\n){n}\Z` anchored at the start of `s`. */
  predicate RowsMatch(s: string, n: nat)
    decreases n
  {
    if n == 0 then AtEnd(s) else RowAt(s) && RowsMatch(s[GridColumns + 1..], n - 1)
  }

  /** `\A(?:[\.\*]{8}\n){4}\Z`. */
  predicate BodyOk(body: string) {
    RowsMatch(body, GridRows)
  }

  /** `validateInput`: `Pass` stands for returning normally, `Fail` for the
      exception it raises. The body check runs on the text after the header. */
  function ValidateInput(s: string): Outcome {
    if !HeaderOk(s) then Fail(HeaderMessage)
    else if !BodyOk(s[HeaderLength..]) then Fail(GridMessage(DigitValue(s[2]), DigitValue(s[0])))
    else Pass
  }

  /** The validation fails with the header message exactly when the text does
      not start with digit, space, digit, newline. */
  lemma HeaderFailure(s: string)
    ensures ValidateInput(s) == Fail(HeaderMessage) <==> !HeaderOk(s)
  {
    if HeaderOk(s) && !BodyOk(s[HeaderLength..]) {
      GridMessageDiffers(DigitValue(s[2]), DigitValue(s[0]));
    }
  }

  lemma GridMessageDiffers(columns: nat, rows: nat)
    ensures GridMessage(columns, rows) != HeaderMessage
  {
    assert GridMessage(columns, rows)[9] == GridMessagePrefix[9] == 'a';
    assert HeaderMessage[9] == 't';
  }

  /** With a good header, the validation fails with the grid message, naming
      the header's second digit and then its first, exactly when the body is
      not four lines of eight cells; otherwise it passes. */
  lemma GridFailure(s: string)
    requires HeaderOk(s)
    ensures ValidateInput(s) == Fail(GridMessageText(s[2], s[0])) <==> !BodyOk(s[HeaderLength..])
    ensures ValidateInput(s) == Pass <==> BodyOk(s[HeaderLength..])
  {
    DigitRoundTrip(s[0]);
    DigitRoundTrip(s[2]);
  }

  /** The grid message spelled with the header's own digit characters. */
  function GridMessageText(columns: char, rows: char): string {
    GridMessagePrefix + [columns] + " x " + [rows]
  }

  /** The body check does not look at the header digits: two texts with good
      headers and the same body pass or fail it together. */
  lemma BodyCheckIgnoresHeader(s: string, t: string)
    requires HeaderOk(s) && HeaderOk(t) && s[HeaderLength..] == t[HeaderLength..]
    ensures ValidateInput(s).Pass? <==> ValidateInput(t).Pass?
  {
  }

  /** A row of the grid as the body pattern accepts it: eight cells. */
  predicate IsGridRow(row: seq<char>) {
    |row| == GridColumns && forall i :: 0 <= i < |row| ==> IsCell(row[i])
  }

  predicate AreGridRows(rows: seq<seq<char>>) {
    forall k :: 0 <= k < |rows| ==> IsGridRow(rows[k])
  }

  /** The rows that a body matching `n` rows spells out. */
  function RowsOf(s: string, n: nat): (rows: seq<seq<char>>)
    requires RowsMatch(s, n)
    ensures |rows| == n && AreGridRows(rows)
    ensures s == JoinRows(rows) || s == JoinRows(rows) + "\n"
    decreases n
  {
    if n == 0 then []
    else
      var row, tail := s[..GridColumns], s[GridColumns + 1..];
      var rest := RowsOf(tail, n - 1);
      RowsOfStep(s, rest);
      [row] + rest
  }

  /** One step of `RowsOf`: the first line of a matching body, put before
      the rows of the rest. */
  lemma RowsOfStep(s: string, rest: seq<seq<char>>)
    requires RowAt(s)
    requires AreGridRows(rest)
    requires s[GridColumns + 1..] == JoinRows(rest) || s[GridColumns + 1..] == JoinRows(rest) + "\n"
    ensures AreGridRows([s[..GridColumns]] + rest)
    ensures s == JoinRows([s[..GridColumns]] + rest) || s == JoinRows([s[..GridColumns]] + rest) + "\n"
  {
    var row, tail := s[..GridColumns], s[GridColumns + 1..];
    JoinRowsCons(row, rest);
    assert s == row + "\n" + tail;
    assert IsGridRow(row);
  }

  /** Rows of eight cells, each followed by a newline and then at most one
      more newline, match the body pattern. */
  lemma {:induction false} JoinRowsMatch(rows: seq<seq<char>>)
    requires AreGridRows(rows)
    ensures RowsMatch(JoinRows(rows), |rows|)
    ensures RowsMatch(JoinRows(rows) + "\n", |rows|)
    decreases |rows|
  {
    if rows != [] {
      var row, rest := rows[0], rows[1..];
      assert rows == [row] + rest;
      JoinRowsCons(row, rest);
      JoinRowsMatch(rest);
      var s := JoinRows(rows);
      assert s[GridColumns + 1..] == JoinRows(rest);
      assert (s + "\n")[GridColumns + 1..] == JoinRows(rest) + "\n";
    } else {
      assert JoinRows(rows) == [];
    }
  }

  /** The body check passes exactly when the body is four lines of eight
      cells, each line ending in a newline, optionally followed by one more
      newline. */
  lemma BodyOkIsFourLinesOfEight(body: string)
    ensures BodyOk(body) <==>
      exists rows :: |rows| == GridRows && AreGridRows(rows)
                     && (body == JoinRows(rows) || body == JoinRows(rows) + "\n")
  {
    if BodyOk(body) {
      var rows := RowsOf(body, GridRows);
    }
    if exists rows :: |rows| == GridRows && AreGridRows(rows)
                      && (body == JoinRows(rows) || body == JoinRows(rows) + "\n") {
      var rows :| |rows| == GridRows && AreGridRows(rows)
                  && (body == JoinRows(rows) || body == JoinRows(rows) + "\n");
      JoinRowsMatch(rows);
    }
  }
}
