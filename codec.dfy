/** Decoding the grid text into a matrix of cells (`convertGridToArray`) and
    encoding a matrix back into grid text (`arrayToGrid`). */
module Codec {
  import opened Cells

  /** The pieces of `s` between newlines, empty ones included: what Ruby's
      `String#split("\n")` computes before it discards trailing empty fields. */
  function Fields(s: string): (r: seq<string>)
    ensures 1 <= |r|
    ensures forall k :: 0 <= k < |r| ==> '\n' !in r[k]
  {
    if s == [] then [[]]
    else
      var rest := Fields(s[1..]);
      if s[0] == '\n' then [[]] + rest
      else
        [[s[0]] + rest[0]] + rest[1..]
  }

  /** The fields joined back with a newline between each two. */
  function Unfields(fields: seq<string>): string
    requires 1 <= |fields|
  {
    if |fields| == 1 then fields[0] else fields[0] + "\n" + Unfields(fields[1..])
  }

  /** Ruby's `split` drops the empty fields at the end of its result, and
      only those. */
  function DropTrailingEmpty(fields: seq<string>): (r: seq<string>)
    ensures |r| <= |fields| && r == fields[..|r|]
    ensures r == [] || r[|r| - 1] != []
    ensures forall k :: |r| <= k < |fields| ==> fields[k] == []
  {
    if fields == [] then []
    else if fields[|fields| - 1] == [] then DropTrailingEmpty(fields[..|fields| - 1])
    else fields
  }

  /** `convertGridToArray`: split the body into lines, then each line into its
      characters. A line is already the sequence of its characters, so the
      second split leaves it as it is. */
  function ConvertGridToArray(body: string): (rows: seq<seq<char>>)
    ensures forall k :: 0 <= k < |rows| ==> '\n' !in rows[k]
    ensures rows == [] || rows[|rows| - 1] != []
  {
    DropTrailingEmpty(Fields(body))
  }

  /** The rows, each followed by a newline, accumulated from the left as the
      outer `reduce` of `arrayToGrid` does. */
  function JoinRows(rows: seq<seq<char>>): (s: string)
    ensures s == [] || s[|s| - 1] == '\n'
  {
    if rows == [] then [] else JoinRows(rows[..|rows| - 1]) + rows[|rows| - 1] + "\n"
  }

  /** The header line `"{height} {width}\n"`. */
  function Header(height: nat, width: nat): string {
    Decimal(height) + " " + Decimal(width) + "\n"
  }

  /** `arrayToGrid`: the header, then every row followed by a newline. */
  function ArrayToGrid(grid: seq<seq<char>>, height: nat, width: nat): string
  {
    Header(height, width) + JoinRows(grid)
  }

  /** Each row is a non-empty line: it has characters and no newline. */
  predicate AreLines(rows: seq<seq<char>>) {
    forall k :: 0 <= k < |rows| ==> rows[k] != [] && '\n' !in rows[k]
  }

  /** The fields of `a + b`, given the fields of `a` and of `b`: the last
      field of `a` and the first field of `b` join into one. */
  function Glue(fa: seq<string>, fb: seq<string>): seq<string>
    requires 1 <= |fa| && 1 <= |fb|
  {
    fa[..|fa| - 1] + [fa[|fa| - 1] + fb[0]] + fb[1..]
  }

  /** `Fields` of a text read from its first character. */
  lemma FieldsCons(c: char, s: string)
    ensures Fields([c] + s) == if c == '\n' then [[]] + Fields(s)
                               else [[c] + Fields(s)[0]] + Fields(s)[1..]
  {
    assert ([c] + s)[0] == c && ([c] + s)[1..] == s;
  }

  lemma GlueAfterEmpty(fa: seq<string>, fb: seq<string>)
    requires 1 <= |fa| && 1 <= |fb|
    ensures [[]] + Glue(fa, fb) == Glue([[]] + fa, fb)
  {
    assert ([[]] + fa)[..|fa|] == [[]] + fa[..|fa| - 1];
  }

  lemma GlueAfterChar(c: char, fa: seq<string>, fb: seq<string>)
    requires 1 <= |fa| && 1 <= |fb|
    ensures var g := Glue(fa, fb);
      [[c] + g[0]] + g[1..] == Glue([[c] + fa[0]] + fa[1..], fb)
  {
    var g := Glue(fa, fb);
    var fa' := [[c] + fa[0]] + fa[1..];
    if |fa| == 1 {
      assert g == [fa[0] + fb[0]] + fb[1..];
      assert [c] + (fa[0] + fb[0]) == ([c] + fa[0]) + fb[0];
    } else {
      assert g == [fa[0]] + (fa[1..|fa| - 1] + [fa[|fa| - 1] + fb[0]] + fb[1..]);
      assert fa'[..|fa'| - 1] == [[c] + fa[0]] + fa[1..|fa| - 1];
    }
  }

  /** Splitting a concatenation glues the last field of the left part to the
      first field of the right part. */
  lemma {:induction false} FieldsConcat(a: string, b: string)
    ensures Fields(a + b) == Glue(Fields(a), Fields(b))
    decreases |a|
  {
    if a == [] {
      assert a + b == b;
      var fb := Fields(b);
      assert [] + fb[0] == fb[0];
      assert Glue([[]], fb) == [fb[0]] + fb[1..] == fb;
    } else {
      var c, a' := a[0], a[1..];
      assert a == [c] + a';
      assert a + b == [c] + (a' + b);
      FieldsConcat(a', b);
      FieldsCons(c, a');
      FieldsCons(c, a' + b);
      if c == '\n' {
        GlueAfterEmpty(Fields(a'), Fields(b));
      } else {
        GlueAfterChar(c, Fields(a'), Fields(b));
      }
    }
  }

  /** Joining the fields with newlines gives the text back: `Fields` loses
      nothing. */
  lemma {:induction false} UnfieldsFields(s: string)
    ensures Unfields(Fields(s)) == s
  {
    if s != [] {
      var c, s' := s[0], s[1..];
      assert s == [c] + s';
      UnfieldsFields(s');
      FieldsCons(c, s');
      var rest := Fields(s');
      if c == '\n' {
        assert ([[]] + rest)[1..] == rest;
      } else if |rest| == 1 {
        assert Unfields([[c] + rest[0]]) == [c] + rest[0];
      } else {
        var r := [[c] + rest[0]] + rest[1..];
        assert r[1..] == rest[1..];
        assert Unfields(r) == ([c] + rest[0]) + "\n" + Unfields(rest[1..]);
      }
    }
  }

  /** A lone newline separates two empty fields. */
  lemma FieldsOfNewline()
    ensures Fields("\n") == [[], []]
  {
    FieldsCons('\n', []);
    assert "\n" == ['\n'] + [];
  }

  /** Text without a newline is a single field. */
  lemma {:induction false} FieldsOfLine(line: string)
    requires '\n' !in line
    ensures Fields(line) == [line]
  {
    if line != [] {
      assert line[0] in line;
      assert forall c :: c in line[1..] ==> c in line;
      FieldsOfLine(line[1..]);
      assert [line[0]] + line[1..] == line;
    }
  }

  /** Splitting encoded rows gives the rows back, plus the empty field after
      the final newline. */
  lemma {:induction false} FieldsOfJoinRows(rows: seq<seq<char>>)
    requires forall k :: 0 <= k < |rows| ==> '\n' !in rows[k]
    ensures Fields(JoinRows(rows)) == rows + [[]]
    decreases |rows|
  {
    if rows == [] {
      assert JoinRows(rows) == [];
    } else {
      var init, last := rows[..|rows| - 1], rows[|rows| - 1];
      FieldsOfJoinRows(init);
      FieldsOfLineNewline(last);
      JoinRowsSnoc(rows);
      FieldsConcat(JoinRows(init), last + "\n");
      GlueLine(init, last);
      assert rows == init + [last];
    }
  }

  /** The last row and its newline come after the encoding of the others. */
  lemma JoinRowsSnoc(rows: seq<seq<char>>)
    requires rows != []
    ensures JoinRows(rows) == JoinRows(rows[..|rows| - 1]) + (rows[|rows| - 1] + "\n")
  {
    var prefix, last := JoinRows(rows[..|rows| - 1]), rows[|rows| - 1];
    assert JoinRows(rows) == prefix + last + "\n";
    assert prefix + last + "\n" == prefix + (last + "\n");
  }

  /** A line and its newline split into the line and an empty field. */
  lemma FieldsOfLineNewline(line: string)
    requires '\n' !in line
    ensures Fields(line + "\n") == [line, []]
  {
    FieldsOfLine(line);
    FieldsConcat(line, "\n");
    FieldsOfNewline();
    assert Glue([line], [[], []]) == [line + []] + [[]];
    assert line + [] == line;
  }

  lemma GlueLine(rows: seq<string>, line: string)
    ensures Glue(rows + [[]], [line, []]) == rows + [line] + [[]]
  {
    var fa := rows + [[]];
    assert fa[..|fa| - 1] == rows;
    assert fa[|fa| - 1] + line == line;
  }

  /** Decoding encoded lines gives the same lines, whether or not the text
      carries one extra newline at its end. */
  lemma DecodeJoinRows(rows: seq<seq<char>>)
    requires AreLines(rows)
    ensures ConvertGridToArray(JoinRows(rows)) == rows
    ensures ConvertGridToArray(JoinRows(rows) + "\n") == rows
  {
    FieldsOfJoinRows(rows);
    DropOneEmpty(rows);
    var text := JoinRows(rows);
    FieldsConcat(text, "\n");
    FieldsOfNewline();
    GlueNewline(rows);
    assert rows + [[], []] == (rows + [[]]) + [[]];
    DropOneEmpty(rows + [[]]);
  }

  lemma GlueNewline(rows: seq<string>)
    ensures Glue(rows + [[]], [[], []]) == rows + [[], []]
  {
    var fa := rows + [[]];
    assert fa[..|fa| - 1] == rows;
    assert fa[|fa| - 1] + [] == [];
  }

  /** Dropping trailing empty fields removes one that was appended. */
  lemma DropOneEmpty(fields: seq<string>)
    ensures DropTrailingEmpty(fields + [[]]) == DropTrailingEmpty(fields)
  {
    assert (fields + [[]])[..|fields|] == fields;
  }

  /** Encoding a decoded body restores the header and the body exactly, when
      the body is a run of non-empty newline-terminated lines. */
  lemma EncodeDecodeRoundTrip(rows: seq<seq<char>>, height: nat, width: nat)
    requires AreLines(rows)
    ensures ArrayToGrid(ConvertGridToArray(JoinRows(rows)), height, width)
         == Header(height, width) + JoinRows(rows)
  {
    DecodeJoinRows(rows);
  }

  /** `JoinRows` read from the front: the first row, its newline, then the rest. */
  lemma {:induction false} JoinRowsCons(row: seq<char>, rest: seq<seq<char>>)
    ensures JoinRows([row] + rest) == row + "\n" + JoinRows(rest)
    decreases |rest|
  {
    if rest != [] {
      var init := rest[..|rest| - 1];
      assert ([row] + rest)[..|rest|] == [row] + init;
      JoinRowsCons(row, init);
    }
  }

  /** Rows of `width` cells take `width + 1` characters each once encoded. */
  lemma {:induction false} JoinRowsLength(rows: seq<seq<char>>, width: nat)
    requires forall y :: 0 <= y < |rows| ==> |rows[y]| == width
    ensures |JoinRows(rows)| == |rows| * (width + 1)
  {
    if rows != [] {
      var init := rows[..|rows| - 1];
      JoinRowsLength(init, width);
      assert |JoinRows(rows)| == |JoinRows(init)| + (width + 1);
      MulSucc(|init|, width + 1);
    }
  }

  /** Character `y * (width + 1) + x` of encoded rows of `width` cells is
      cell `x` of row `y`. */
  lemma {:induction false} JoinRowsAt(rows: seq<seq<char>>, width: nat, x: nat, y: nat)
    requires forall k :: 0 <= k < |rows| ==> |rows[k]| == width
    requires x < width && y < |rows|
    ensures |JoinRows(rows)| == |rows| * (width + 1)
    ensures y * (width + 1) + x < |JoinRows(rows)|
         && JoinRows(rows)[y * (width + 1) + x] == rows[y][x]
    decreases |rows|
  {
    var init := rows[..|rows| - 1];
    var prefix := JoinRows(init);
    JoinRowsLength(init, width);
    JoinRowsLength(rows, width);
    MulSucc(y, width + 1);
    MulMonotonic(y + 1, |rows|, width + 1);
    var i := y * (width + 1) + x;
    assert JoinRows(rows) == prefix + (rows[|rows| - 1] + "\n");
    if y < |init| {
      JoinRowsAt(init, width, x, y);
      assert i < |prefix|;
      assert JoinRows(rows)[i] == prefix[i];
    } else {
      assert i == |prefix| + x;
      assert JoinRows(rows)[i] == (rows[|rows| - 1] + "\n")[x];
    }
  }

  lemma MulSucc(a: nat, b: nat)
    ensures (a + 1) * b == a * b + b
  {
  }

  lemma MulMonotonic(a: nat, c: nat, b: nat)
    requires a <= c
    ensures a * b <= c * b
  {
  }
}
