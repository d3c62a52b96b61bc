/** A grid of text written as worksheet cells and read back (exportxlsx/xlsx.go,
    importxlsx/read.go). Columns are named as in the c element of ECMA-376 Part 1, section
    18.3.1.4: bijective base 26 over the letters A to Z. */
module Spreadsheet {
  import opened Text
  import opened Numerals

  datatype Cell = Cell(ref: string, cellType: string, value: string, inlineText: string)

  type Grid = seq<seq<string>>

  // ----- column labels

  function Letter(d: nat): char
    requires d < 26
  {
    'A' + d as char
  }

  function Label(column: int): string
    decreases column + 1
  {
    if column < 0 then "" else Label(column / 26 - 1) + [Letter(column % 26)]
  }

  method CellRef(columnIndex: int, rowIndex: nat) returns (ref: string)
    ensures ref == Label(columnIndex) + Itoa(rowIndex)
  {
    var column := "";
    var index := columnIndex;
    while index >= 0
      invariant index >= -1 || column == ""
      invariant Label(columnIndex) == Label(index) + column
      decreases index + 1
    {
      var prefix := Label(index / 26 - 1);
      assert Label(index) + column == prefix + ([Letter(index % 26)] + column);
      column := [Letter(index % 26)] + column;
      index := index / 26 - 1;
    }
    ref := column + Itoa(rowIndex);
  }

  predicate IsLetter(c: char) {
    'A' <= c <= 'Z' || 'a' <= c <= 'z'
  }

  function LetterPrefix(s: string): (r: string)
    ensures |r| <= |s| && r == s[..|r|] && forall i :: 0 <= i < |r| ==> IsLetter(r[i])
  {
    if s == "" || !IsLetter(s[0]) then "" else [s[0]] + LetterPrefix(s[1..])
  }

  function LabelValue(letters: string): int
    requires forall i :: 0 <= i < |letters| ==> IsLetter(letters[i])
  {
    if letters == "" then 0
    else LabelValue(letters[..|letters| - 1]) * 26 + (UpperChar(letters[|letters| - 1]) as int - 'A' as int + 1)
  }

  /** The column a reference names, -1 when it names none. */
  function Column(ref: string): int {
    if LetterPrefix(ref) == "" then -1 else LabelValue(LetterPrefix(ref)) - 1
  }

  method CellColumn(ref: string) returns (column: int)
    ensures column == Column(ref)
  {
    var letters := LetterPrefix(ref);
    if letters == "" {
      return -1;
    }
    column := 0;
    for i := 0 to |letters|
      invariant column == LabelValue(letters[..i])
    {
      assert letters[..i + 1][..i] == letters[..i];
      column := column * 26 + (UpperChar(letters[i]) as int - 'A' as int + 1);
    }
    assert letters[..|letters|] == letters;
    column := column - 1;
  }

  lemma {:induction false} LabelIsUpper(column: int)
    ensures forall i :: 0 <= i < |Label(column)| ==> 'A' <= Label(column)[i] <= 'Z'
    ensures column >= 0 ==> Label(column) != ""
    decreases column + 1
  {
    if column >= 0 {
      LabelIsUpper(column / 26 - 1);
    }
  }

  lemma LabelValueSnoc(init: string, last: char)
    requires (forall i :: 0 <= i < |init| ==> IsLetter(init[i])) && 'A' <= last <= 'Z'
    ensures forall i :: 0 <= i < |init + [last]| ==> IsLetter((init + [last])[i])
    ensures LabelValue(init + [last]) == LabelValue(init) * 26 + (last as int - 'A' as int + 1)
  {
    assert (init + [last])[..|init|] == init;
  }

  lemma DigitsOfColumn(column: nat)
    ensures column == (column / 26) * 26 + column % 26
    ensures Letter(column % 26) as int - 'A' as int == column % 26 && 'A' <= Letter(column % 26) <= 'Z'
  {
  }

  lemma {:induction false} LabelValueOf(column: int)
    requires column >= -1
    ensures (forall i :: 0 <= i < |Label(column)| ==> IsLetter(Label(column)[i])) &&
            LabelValue(Label(column)) == column + 1
    decreases column + 1
  {
    if column >= 0 {
      LabelValueOf(column / 26 - 1);
      DigitsOfColumn(column);
      LabelValueSnoc(Label(column / 26 - 1), Letter(column % 26));
    }
  }

  lemma {:induction false} PrefixOfRef(letters: string, rest: string)
    requires forall i :: 0 <= i < |letters| ==> IsLetter(letters[i])
    requires rest == "" || !IsLetter(rest[0])
    ensures LetterPrefix(letters + rest) == letters
  {
    if letters != "" {
      assert (letters + rest)[1..] == letters[1..] + rest;
      PrefixOfRef(letters[1..], rest);
    } else {
      assert letters + rest == rest;
    }
  }

  /** Reading the column of a written reference gives the column it was written for. */
  lemma ColumnOfRef(column: nat, row: nat)
    ensures Column(Label(column) + Itoa(row)) == column
  {
    LabelIsUpper(column);
    LabelValueOf(column);
    PrefixOfRef(Label(column), Itoa(row));
  }

  lemma DivideByBase(v: int, d: int)
    requires 0 <= d < 26
    ensures (v * 26 + d) / 26 == v && (v * 26 + d) % 26 == d
  {
  }

  lemma LabelUnfolds(column: nat, v: int, d: int)
    requires column / 26 == v && column % 26 == d && v >= 0 && 0 <= d < 26
    ensures Label(column) == Label(v - 1) + [Letter(d)]
  {
  }

  /** A label one letter longer: v is the value of the letters before, column that of all, less one. */
  lemma LabelSnoc(letters: string, init: string, v: int, column: int)
    requires letters != "" && init == letters[..|letters| - 1] && 'A' <= letters[|letters| - 1] <= 'Z'
    requires v >= 0 && Label(v - 1) == init && column == v * 26 + (letters[|letters| - 1] as int - 'A' as int)
    ensures column >= 0 && Label(column) == letters
  {
    hide Label;
    var last := letters[|letters| - 1];
    var d := last as int - 'A' as int;
    DivideByBase(v, d);
    LabelUnfolds(column, v, d);
    assert Letter(d) == last;
    assert letters == init + [last];
  }

  /** Every string of capital letters labels the column it is read as. */
  lemma {:induction false} LabelOfColumn(letters: string)
    requires forall i :: 0 <= i < |letters| ==> 'A' <= letters[i] <= 'Z'
    ensures LabelValue(letters) >= |letters| && Label(LabelValue(letters) - 1) == letters
  {
    if letters == "" {
      NoLabel();
    } else {
      hide Label, LabelValue;
      var init, last := letters[..|letters| - 1], letters[|letters| - 1];
      LabelOfColumn(init);
      assert letters == init + [last];
      LabelValueSnoc(init, last);
      LabelSnoc(letters, init, LabelValue(init), LabelValue(letters) - 1);
    }
  }

  /** Small letters read as capital ones. */
  lemma {:induction false} CaseIsIgnored(a: string, b: string)
    requires (forall i :: 0 <= i < |a| ==> IsLetter(a[i])) && (forall i :: 0 <= i < |b| ==> IsLetter(b[i]))
    requires |a| == |b| && forall i :: 0 <= i < |a| ==> SameLetter(a[i], b[i])
    ensures LabelValue(a) == LabelValue(b)
  {
    if a != "" {
      CaseIsIgnored(a[..|a| - 1], b[..|b| - 1]);
    }
  }

  /** The labels: the first 26 columns are the capital letters, and each label is followed by the 26
      columns that add a letter to it. */
  lemma LabelGrows(column: int, d: nat)
    requires column >= -1 && d < 26
    ensures Label((column + 1) * 26 + d) == (if column == -1 then "" else Label(column)) + ['A' + d as char]
  {
    DivideByBase(column + 1, d);
    hide Label;
    LabelUnfolds((column + 1) * 26 + d, column + 1, d);
    NoLabel();
  }

  lemma NoLabel()
    ensures Label(-1) == ""
  {
  }

  // ----- writing

  function WrittenCell(text: string, column: nat, row: nat): Cell {
    Cell(Label(column) + Itoa(row), "inlineStr", "", text)
  }

  function WrittenRow(texts: seq<string>, row: nat): (r: seq<Cell>)
    ensures |r| == |texts| && forall i :: 0 <= i < |r| ==> r[i] == WrittenCell(texts[i], i, row)
  {
    seq(|texts|, i requires 0 <= i < |texts| => WrittenCell(texts[i], i, row))
  }

  function Written(grid: Grid): (r: seq<seq<Cell>>)
    ensures |r| == |grid| && forall i :: 0 <= i < |r| ==> r[i] == WrittenRow(grid[i], i + 1)
  {
    seq(|grid|, i requires 0 <= i < |grid| => WrittenRow(grid[i], i + 1))
  }

  /** Rows count from one, columns from zero, and the text is written inline. */
  lemma WrittenAt(grid: Grid, i: nat, j: nat)
    requires i < |grid| && j < |grid[i]|
    ensures |Written(grid)| == |grid| && |Written(grid)[i]| == |grid[i]|
    ensures Written(grid)[i][j] == Cell(Label(j) + Itoa(i + 1), "inlineStr", "", grid[i][j])
  {
    hide Label, Itoa;
  }

  method WriteRow(texts: seq<string>, excelRow: nat) returns (cells: seq<Cell>)
    ensures cells == WrittenRow(texts, excelRow)
  {
    cells := [];
    for i := 0 to |texts|
      invariant cells == WrittenRow(texts, excelRow)[..i]
    {
      var ref := CellRef(i, excelRow);
      cells := cells + [Cell(ref, "inlineStr", "", texts[i])];
    }
  }

  method WorksheetCells(grid: Grid) returns (rows: seq<seq<Cell>>)
    ensures rows == Written(grid)
  {
    rows := [];
    for i := 0 to |grid|
      invariant rows == Written(grid)[..i]
    {
      var cells := WriteRow(grid[i], i + 1);
      rows := rows + [cells];
    }
  }

  // ----- reading

  function CellValue(cell: Cell, shared: seq<string>): string {
    if cell.cellType == "s" && AtoiOk(Trim(cell.value)) && 0 <= Atoi(Trim(cell.value)) < |shared|
    then Trim(shared[Atoi(Trim(cell.value))])
    else if cell.cellType == "inlineStr" then Trim(cell.inlineText)
    else Trim(cell.value)
  }

  datatype RowState = RowState(values: map<int, string>, maxColumn: int)

  /** A cell without a usable reference goes right of the rightmost cell so far. */
  function Place(s: RowState, cell: Cell, shared: seq<string>): RowState {
    var column := if Column(cell.ref) < 0 then s.maxColumn + 1 else Column(cell.ref);
    RowState(s.values[column := CellValue(cell, shared)], if column > s.maxColumn then column else s.maxColumn)
  }

  function Placed(cells: seq<Cell>, shared: seq<string>): (s: RowState)
    ensures s.maxColumn >= -1 && forall c :: c in s.values ==> 0 <= c <= s.maxColumn
  {
    if cells == [] then RowState(map[], -1) else Place(Placed(cells[..|cells| - 1], shared), cells[|cells| - 1], shared)
  }

  /** The row: cells nobody wrote are empty. */
  function Laid(s: RowState): (r: seq<string>)
    requires s.maxColumn >= -1
    ensures |r| == s.maxColumn + 1
    ensures forall i :: 0 <= i < |r| ==> r[i] == if i in s.values then s.values[i] else ""
  {
    seq(s.maxColumn + 1, i requires 0 <= i < s.maxColumn + 1 => if i in s.values then s.values[i] else "")
  }

  function ReadRows(rows: seq<seq<Cell>>, shared: seq<string>): (r: Grid)
    ensures |r| == |rows| && forall i :: 0 <= i < |r| ==> r[i] == Laid(Placed(rows[i], shared))
  {
    seq(|rows|, i requires 0 <= i < |rows| => Laid(Placed(rows[i], shared)))
  }

  predicate BlankRow(row: seq<string>) {
    forall i :: 0 <= i < |row| ==> Blank(row[i])
  }

  function DropBlankRows(rows: Grid): Grid {
    if rows != [] && BlankRow(rows[|rows| - 1]) then DropBlankRows(rows[..|rows| - 1]) else rows
  }

  lemma PlacedSnoc(cells: seq<Cell>, i: nat, shared: seq<string>)
    requires i < |cells|
    ensures Placed(cells[..i + 1], shared) == Place(Placed(cells[..i], shared), cells[i], shared)
  {
    assert cells[..i + 1][..i] == cells[..i];
  }

  method ReadRow(cells: seq<Cell>, shared: seq<string>) returns (row: seq<string>)
    ensures row == Laid(Placed(cells, shared))
  {
    hide CellValue, Column, Trim;
    var values: map<int, string> := map[];
    var maxColumn := -1;
    for i := 0 to |cells|
      invariant RowState(values, maxColumn) == Placed(cells[..i], shared)
    {
      PlacedSnoc(cells, i, shared);
      var column := CellColumn(cells[i].ref);
      if column < 0 {
        column := maxColumn + 1;
      }
      var value := CellValue(cells[i], shared);
      values := values[column := value];
      if column > maxColumn {
        maxColumn := column;
      }
    }
    assert cells[..|cells|] == cells;
    row := Laid(RowState(values, maxColumn));
  }

  method TrimEmptyTrailingRows(rows: Grid) returns (kept: Grid)
    ensures kept == DropBlankRows(rows)
  {
    var last := |rows| - 1;
    assert rows[..last + 1] == rows;
    while last >= 0 && BlankRow(rows[last])
      invariant -1 <= last < |rows|
      invariant DropBlankRows(rows) == DropBlankRows(rows[..last + 1])
    {
      assert rows[..last + 1][..last] == rows[..last];
      last := last - 1;
    }
    if last < 0 {
      return [];
    }
    return rows[..last + 1];
  }

  method ReadWorksheet(rows: seq<seq<Cell>>, shared: seq<string>) returns (grid: Grid)
    ensures grid == DropBlankRows(ReadRows(rows, shared))
  {
    hide Laid, Placed, DropBlankRows;
    var read: Grid := [];
    for i := 0 to |rows|
      invariant read == ReadRows(rows, shared)[..i]
    {
      var row := ReadRow(rows[i], shared);
      read := read + [row];
    }
    assert read == ReadRows(rows, shared);
    grid := TrimEmptyTrailingRows(read);
  }

  // ----- what a cell reads as, and where it is laid

  /** A cell of type "s" holds the number of a shared string; one without such a string, and a cell
      of any other type but inlineStr, reads as its own value. */
  lemma CellReads(ref: string, cellType: string, value: string, inlineText: string, shared: seq<string>, k: nat)
    ensures k < |shared| && k <= INT64_MAX && Trim(value) == Itoa(k) ==>
              CellValue(Cell(ref, "s", value, inlineText), shared) == Trim(shared[k])
    ensures k >= |shared| && Trim(value) == Itoa(k) ==> CellValue(Cell(ref, "s", value, inlineText), shared) == Itoa(k)
    ensures CellValue(Cell(ref, "inlineStr", value, inlineText), shared) == Trim(inlineText)
    ensures cellType != "s" && cellType != "inlineStr" ==>
              CellValue(Cell(ref, cellType, value, inlineText), shared) == Trim(value)
  {
    hide Trim, Itoa, AtoiOk, Atoi;
    assert |"s"| == 1 && |"inlineStr"| == 9;
    ItoaReads(k);
  }

  /** The column of cell i: the one it names, or one right of all before it. */
  ghost predicate ColumnAt(cells: seq<Cell>, cols: seq<int>, i: nat)
    requires i < |cells| == |cols|
  {
    if Column(cells[i].ref) >= 0 then cols[i] == Column(cells[i].ref)
    else (forall j :: 0 <= j < i ==> cols[j] < cols[i]) && (cols[i] == 0 || cols[i] - 1 in cols[..i])
  }

  ghost predicate Columns(cells: seq<Cell>, cols: seq<int>) {
    |cols| == |cells| && forall i {:trigger ColumnAt(cells, cols, i)} :: 0 <= i < |cells| ==> ColumnAt(cells, cols, i)
  }

  /** No later cell is put in the same column. */
  ghost predicate LastThere(cols: seq<int>, i: nat)
    requires i < |cols|
  {
    forall j :: i < j < |cols| ==> cols[j] != cols[i]
  }

  /** Where the cells of a row are put: in their columns, the last one put there if there are several. */
  ghost predicate PlacedBy(cells: seq<Cell>, cols: seq<int>, shared: seq<string>, s: RowState)
    requires |cols| == |cells|
  {
    && (forall i :: 0 <= i < |cols| ==> 0 <= cols[i] <= s.maxColumn) && (s.maxColumn == -1 || s.maxColumn in cols)
    && (forall c :: c in s.values ==> c in cols)
    && forall i {:trigger LastThere(cols, i)} :: 0 <= i < |cells| && LastThere(cols, i) ==>
         cols[i] in s.values && s.values[cols[i]] == CellValue(cells[i], shared)
  }

  lemma ColumnsSnoc(cells: seq<Cell>, cols: seq<int>, n: nat)
    requires |cells| == n + 1 && Columns(cells, cols)
    ensures Columns(cells[..n], cols[..n])
  {
    hide Column;
    forall i | 0 <= i < n
      ensures ColumnAt(cells[..n], cols[..n], i)
    {
      assert ColumnAt(cells, cols, i) && cols[..n][..i] == cols[..i];
    }
  }

  lemma NextColumn(cells: seq<Cell>, cols: seq<int>, n: nat, max: int)
    requires |cells| == |cols| == n + 1 && ColumnAt(cells, cols, n)
    requires max >= -1 && (forall j :: 0 <= j < n ==> 0 <= cols[j] <= max) && (max == -1 || max in cols[..n])
    ensures cols[n] == if Column(cells[n].ref) < 0 then max + 1 else Column(cells[n].ref)
  {
    hide Column;
    if max != -1 {
      var j :| 0 <= j < n && cols[..n][j] == max;
      assert cols[j] == max;
    }
  }

  lemma LastThereSnoc(cols: seq<int>, n: nat, i: nat)
    requires |cols| == n + 1 && i < n && LastThere(cols, i)
    ensures LastThere(cols[..n], i) && cols[i] != cols[n]
  {
  }

  lemma PlaceNext(cells: seq<Cell>, cols: seq<int>, n: nat, shared: seq<string>, s: RowState)
    requires |cells| == |cols| == n + 1 && s.maxColumn >= -1
    requires PlacedBy(cells[..n], cols[..n], shared, s) && ColumnAt(cells, cols, n)
    ensures PlacedBy(cells, cols, shared, Place(s, cells[n], shared))
  {
    hide CellValue, Column, LastThere, ColumnAt;
    var next := Place(s, cells[n], shared);
    assert forall j :: 0 <= j < n ==> cols[..n][j] == cols[j];
    NextColumn(cells, cols, n, s.maxColumn);
    assert cols == cols[..n] + [cols[n]];
    forall i | 0 <= i < |cells| && LastThere(cols, i)
      ensures cols[i] in next.values && next.values[cols[i]] == CellValue(cells[i], shared)
    {
      if i < n {
        LastThereSnoc(cols, n, i);
        assert cols[..n][i] == cols[i];
      }
    }
  }

  lemma {:induction false} PlacedAt(cells: seq<Cell>, cols: seq<int>, shared: seq<string>)
    requires Columns(cells, cols)
    ensures PlacedBy(cells, cols, shared, Placed(cells, shared))
  {
    hide CellValue, Column, Place, LastThere;
    if cells != [] {
      var n := |cells| - 1;
      ColumnsSnoc(cells, cols, n);
      PlacedAt(cells[..n], cols[..n], shared);
      assert ColumnAt(cells, cols, n);
      PlaceNext(cells, cols, n, shared, Placed(cells[..n], shared));
    }
  }

  lemma {:induction false} LastThereExists(cols: seq<int>, c: int) returns (i: nat)
    requires c in cols
    ensures i < |cols| && cols[i] == c && LastThere(cols, i)
  {
    var n := |cols| - 1;
    if cols[n] == c {
      i := n;
    } else {
      assert cols == cols[..n] + [cols[n]];
      i := LastThereExists(cols[..n], c);
      assert forall j :: i < j < n ==> cols[..n][j] == cols[j];
    }
  }

  /** A row as long as its rightmost cell needs, with the last cell put in a column, and nothing
      where no cell is put. */
  ghost predicate LaidBy(cells: seq<Cell>, cols: seq<int>, shared: seq<string>, row: seq<string>)
    requires |cols| == |cells|
  {
    && (forall i :: 0 <= i < |cols| ==> 0 <= cols[i] < |row|) && (row == [] || |row| - 1 in cols)
    && (forall c :: 0 <= c < |row| && c !in cols ==> row[c] == "")
    && forall i {:trigger LastThere(cols, i)} :: 0 <= i < |cells| && LastThere(cols, i) ==>
         row[cols[i]] == CellValue(cells[i], shared)
  }

  /** A row is laid out by the columns of its cells, and by nothing else. */
  lemma RowLaidOut(cells: seq<Cell>, cols: seq<int>, shared: seq<string>, row: seq<string>)
    requires Columns(cells, cols)
    ensures LaidBy(cells, cols, shared, row) <==> row == Laid(Placed(cells, shared))
  {
    hide CellValue, Column, ColumnAt, Place, Placed, LastThere;
    PlacedAt(cells, cols, shared);
    if LaidBy(cells, cols, shared, row) {
      var laid := Laid(Placed(cells, shared));
      assert LaidBy(cells, cols, shared, laid);
      SameLayout(cells, cols, shared, row, laid);
    }
  }

  lemma SameLayout(cells: seq<Cell>, cols: seq<int>, shared: seq<string>, a: seq<string>, b: seq<string>)
    requires |cols| == |cells| && LaidBy(cells, cols, shared, a) && LaidBy(cells, cols, shared, b)
    ensures a == b
  {
    hide CellValue, LastThere;
    assert |a| == |b|;
    forall c | 0 <= c < |a|
      ensures a[c] == b[c]
    {
      if c in cols {
        var i := LastThereExists(cols, c);
        assert a[cols[i]] == b[cols[i]];
      }
    }
  }

  /** Every row has such columns. */
  lemma {:induction false} ColumnsExist(cells: seq<Cell>) returns (cols: seq<int>)
    ensures Columns(cells, cols)
  {
    hide Column, Place, LastThere;
    if cells == [] {
      cols := [];
    } else {
      var n := |cells| - 1;
      var init := ColumnsExist(cells[..n]);
      PlacedAt(cells[..n], init, []);
      var next := Placed(cells[..n], []).maxColumn + 1;
      cols := init + [if Column(cells[n].ref) >= 0 then Column(cells[n].ref) else next];
      assert cols[..n] == init;
      forall i | 0 <= i < n
        ensures ColumnAt(cells, cols, i)
      {
        assert ColumnAt(cells[..n], init, i) && init[..i] == cols[..i];
      }
      assert ColumnAt(cells, cols, n);
    }
  }

  // ----- the round trip

  function TrimRow(row: seq<string>): (r: seq<string>)
    ensures |r| == |row| && forall i :: 0 <= i < |r| ==> r[i] == Trim(row[i])
  {
    seq(|row|, i requires 0 <= i < |row| => Trim(row[i]))
  }

  function TrimGrid(grid: Grid): (r: Grid)
    ensures |r| == |grid| && forall i :: 0 <= i < |r| ==> r[i] == TrimRow(grid[i])
  {
    seq(|grid|, i requires 0 <= i < |grid| => TrimRow(grid[i]))
  }

  lemma PlaceWritten(s: RowState, text: string, column: nat, row: nat, shared: seq<string>)
    requires s.maxColumn == column - 1
    ensures Place(s, WrittenCell(text, column, row), shared) == RowState(s.values[column := Trim(text)], column)
  {
    ColumnOfRef(column, row);
    WrittenValue(text, column, row, shared);
  }

  lemma WrittenValue(text: string, column: nat, row: nat, shared: seq<string>)
    ensures CellValue(WrittenCell(text, column, row), shared) == Trim(text)
  {
    assert |"s"| == 1 && |"inlineStr"| == 9;
  }

  function FirstTexts(trimmed: seq<string>, k: nat): map<int, string>
    requires k <= |trimmed|
  {
    map i | 0 <= i < k :: trimmed[i]
  }

  lemma FirstTextsSnoc(trimmed: seq<string>, k: nat)
    requires 0 < k <= |trimmed|
    ensures FirstTexts(trimmed, k) == FirstTexts(trimmed, k - 1)[k - 1 := trimmed[k - 1]]
    ensures FirstTexts(trimmed, 0) == map[]
  {
  }

  lemma {:induction false} PlacedRow(texts: seq<string>, row: nat, k: nat, shared: seq<string>, trimmed: seq<string>)
    requires k <= |texts| && trimmed == TrimRow(texts)
    ensures Placed(WrittenRow(texts, row)[..k], shared) == RowState(FirstTexts(trimmed, k), k - 1)
  {
    hide Trim, Place, WrittenCell, Column, CellValue, TrimRight, TrimLeft, Label;
    var cells := WrittenRow(texts, row);
    if k == 0 {
      assert cells[..0] == [] && FirstTexts(trimmed, 0) == map[];
    } else {
      PlacedRow(texts, row, k - 1, shared, trimmed);
      var before := Placed(cells[..k - 1], shared);
      PlacedSnoc(cells, k - 1, shared);
      PlaceWritten(before, texts[k - 1], k - 1, row, shared);
      FirstTextsSnoc(trimmed, k);
    }
  }

  lemma RowRoundTrip(texts: seq<string>, row: nat, shared: seq<string>)
    ensures Laid(Placed(WrittenRow(texts, row), shared)) == TrimRow(texts)
  {
    hide Trim, Placed, WrittenCell, Place;
    PlacedRow(texts, row, |texts|, shared, TrimRow(texts));
    assert WrittenRow(texts, row)[..|texts|] == WrittenRow(texts, row);
  }

  /** Reading back any written grid gives it with every cell trimmed and trailing blank rows dropped. */
  lemma {:induction false} GridRoundTrip(grid: Grid, shared: seq<string>)
    ensures DropBlankRows(ReadRows(Written(grid), shared)) == DropBlankRows(TrimGrid(grid))
  {
    hide Trim, Placed, Laid, WrittenRow;
    forall i | 0 <= i < |grid|
      ensures ReadRows(Written(grid), shared)[i] == TrimGrid(grid)[i]
    {
      RowRoundTrip(grid[i], i + 1, shared);
    }
    assert ReadRows(Written(grid), shared) == TrimGrid(grid);
  }

  lemma {:induction false} DropTwice(rows: Grid)
    ensures DropBlankRows(DropBlankRows(rows)) == DropBlankRows(rows)
    ensures |DropBlankRows(rows)| <= |rows| && DropBlankRows(rows) == rows[..|DropBlankRows(rows)|]
  {
    if rows != [] && BlankRow(rows[|rows| - 1]) {
      DropTwice(rows[..|rows| - 1]);
    }
  }

  /** What was read once survives being written and read again unchanged. */
  lemma {:induction false} SecondTripChangesNothing(grid: Grid, shared: seq<string>)
    ensures var once := DropBlankRows(ReadRows(Written(grid), shared));
            DropBlankRows(ReadRows(Written(once), shared)) == once
  {
    GridRoundTrip(grid, shared);
    var once := DropBlankRows(TrimGrid(grid));
    DropTwice(TrimGrid(grid));
    forall i | 0 <= i < |once|
      ensures TrimGrid(once)[i] == once[i]
    {
      assert once[i] == TrimRow(grid[i]);
      forall j | 0 <= j < |grid[i]|
        ensures Trim(once[i][j]) == once[i][j]
      {
        TrimIdempotent(grid[i][j]);
      }
      assert TrimRow(once[i]) == once[i];
    }
    assert TrimGrid(once) == once;
    GridRoundTrip(once, shared);
  }

  lemma {:induction false} DropsNothingIff(rows: Grid)
    ensures DropBlankRows(rows) == rows <==> rows == [] || !BlankRow(rows[|rows| - 1])
  {
    if rows != [] {
      DropTwice(rows[..|rows| - 1]);
    }
  }

  predicate AllTrimmed(grid: Grid) {
    forall i, j :: 0 <= i < |grid| && 0 <= j < |grid[i]| ==> Trim(grid[i][j]) == grid[i][j]
  }

  lemma TrimsNothingIff(grid: Grid)
    ensures TrimGrid(grid) == grid <==> AllTrimmed(grid)
  {
    hide Trim;
    if TrimGrid(grid) == grid {
      forall i, j | 0 <= i < |grid| && 0 <= j < |grid[i]|
        ensures Trim(grid[i][j]) == grid[i][j]
      {
        assert TrimRow(grid[i])[j] == TrimGrid(grid)[i][j];
      }
    }
    if AllTrimmed(grid) {
      forall i | 0 <= i < |grid|
        ensures TrimGrid(grid)[i] == grid[i]
      {
        assert TrimRow(grid[i]) == grid[i];
      }
    }
  }

  /** A grid comes back as it was written if and only if every cell is trimmed and the last row,
      if any, is not blank. */
  lemma {:induction false} SurvivesUnchangedIff(grid: Grid, shared: seq<string>)
    ensures DropBlankRows(ReadRows(Written(grid), shared)) == grid <==>
            AllTrimmed(grid) && (grid == [] || !BlankRow(grid[|grid| - 1]))
  {
    hide Trim, Written, ReadRows, TrimGrid, BlankRow, AllTrimmed;
    GridRoundTrip(grid, shared);
    DropsNothingIff(grid);
    TrimsNothingIff(grid);
    DropTwice(TrimGrid(grid));
  }
}
