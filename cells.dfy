/** The alphabet of the grid text: cell symbols, decimal digits, and the
    shape of a matrix of cells. */
module Cells {

  /** A live cell (`ALIVE` in the source). */
  const Alive: char := '*'

  /** A dead cell (`DEAD` in the source). */
  const Dead: char := '.'

  predicate IsCell(c: char) {
    c == Alive || c == Dead
  }

  /** The character class `[0-9]`. */
  predicate IsDigit(c: char) {
    '0' <= c <= '9'
  }

  predicate AllDigits(s: string) {
    forall i :: 0 <= i < |s| ==> IsDigit(s[i])
  }

  /** `String#to_i` applied to a one-character digit string. */
  function DigitValue(c: char): (n: nat)
    requires IsDigit(c)
    ensures n < 10
  {
    (c as int) - ('0' as int)
  }

  /** The digit character that spells `n`. */
  function DigitChar(n: nat): (c: char)
    requires n < 10
    ensures IsDigit(c) && DigitValue(c) == n
  {
    (('0' as int) + n) as char
  }

  /** The number that a string of decimal digits spells, most significant digit first. */
  function DecimalValue(s: string): nat
    requires AllDigits(s)
  {
    if s == [] then 0 else DecimalValue(s[..|s| - 1]) * 10 + DigitValue(s[|s| - 1])
  }

  /** `Integer#to_s` on a non-negative integer: its decimal digits, with no
      leading zero, and reading them back gives `n` again. */
  function Decimal(n: nat): (s: string)
    ensures 1 <= |s| && AllDigits(s)
    ensures |s| == 1 <==> n < 10
    ensures n > 0 ==> s[0] != '0'
    ensures DecimalValue(s) == n
    decreases n
  {
    if n < 10 then [DigitChar(n)]
    else
      var s := Decimal(n / 10) + [DigitChar(n % 10)];
      assert s[..|s| - 1] == Decimal(n / 10);
      s
  }

  /** A one-character digit string survives `to_i` followed by `to_s`. */
  lemma DigitRoundTrip(c: char)
    requires IsDigit(c)
    ensures Decimal(DigitValue(c)) == [c]
  {
  }

  /** Every row of `g` is as long as the first one. */
  predicate IsRectangular(g: seq<seq<char>>) {
    forall y :: 0 <= y < |g| ==> |g[y]| == |g[0]|
  }

  /** Column `x` of row `y` is a cell of `g`. */
  predicate InGrid(g: seq<seq<char>>, x: int, y: int) {
    0 <= y < |g| && 0 <= x < |g[y]|
  }
}
