/** Rows of a table as lines of text, and the operations on the table. */
module CsvModel {
  import opened SnapResult
  import opened TextFiles

  /** Cells of one row, each followed by the delimiter. */
  function RowLine(values: seq<string>): string {
    if values == [] then "" else values[0] + ";" + RowLine(values[1..])
  }

  function CellEnd(s: string): (k: nat)
    ensures k <= |s|
    ensures k < |s| ==> s[k] == ';'
    ensures forall i :: 0 <= i < k ==> s[i] != ';'
  {
    IndexOf(s, ';')
  }

  /** Without a delimiter the text stays as it is. */
  function NextCells(row: string): string {
    if CellEnd(row) < |row| then row[CellEnd(row) + 1..] else row
  }

  function SkipCells(row: string, n: nat): string {
    if n == 0 then row else SkipCells(NextCells(row), n - 1)
  }

  /** A cell is cut at its delimiter unless the delimiter comes first. */
  function FirstCell(row: string): string {
    if CellEnd(row) != 0 then row[..CellEnd(row)] else row
  }

  function Cell(row: string, column: nat): string { FirstCell(SkipCells(row, column)) }

  predicate OneCell(s: string) { ';' !in s }

  predicate AllOneCell(values: seq<string>) { forall v :: v in values ==> OneCell(v) }

  lemma CellEndConcat(v: string, rest: string)
    requires OneCell(v)
    ensures CellEnd(v + ";" + rest) == |v| && NextCells(v + ";" + rest) == rest
    ensures (v + ";" + rest)[..|v|] == v
  {
    hide CellEnd;
    var t := v + ";" + rest;
    assert t[|v|] == ';';
    assert forall i :: 0 <= i < |v| ==> t[i] == v[i];
    assert t[|v| + 1..] == rest;
  }

  lemma {:induction false} SkipIsDrop(values: seq<string>, n: nat)
    requires AllOneCell(values) && n <= |values|
    ensures SkipCells(RowLine(values), n) == RowLine(values[n..])
    decreases n
  {
    hide CellEnd, NextCells;
    if n > 0 {
      CellEndConcat(values[0], RowLine(values[1..]));
      SkipIsDrop(values[1..], n - 1);
      assert values[1..][n - 1..] == values[n..];
    } else {
      assert values[0..] == values;
    }
  }

  /** A cell is read back from its row exactly if it is not empty; an empty cell is read as the rest of the row. */
  lemma CellReadBack(values: seq<string>, n: nat)
    requires AllOneCell(values) && n < |values|
    ensures Cell(RowLine(values), n) == values[n] <==> values[n] != ""
    ensures values[n] == "" ==> Cell(RowLine(values), n) == RowLine(values[n..])
  {
    hide FirstCell, SkipCells;
    SkipIsDrop(values, n);
    assert values[n..][1..] == values[n + 1..];
    FirstCellOf(values[n], RowLine(values[n + 1..]));
  }

  lemma FirstCellOf(v: string, rest: string)
    requires OneCell(v)
    ensures FirstCell(v + ";" + rest) == if v == "" then v + ";" + rest else v
    ensures v + ";" + rest != ""
  {
    hide CellEnd, NextCells;
    CellEndConcat(v, rest);
  }

  // ---------- the table ----------

  /** The rows: lines behind the header up to the first empty one. */
  function RowsFrom(lines: seq<string>, i: nat): seq<string>
    decreases |lines| - i
  {
    if LineAt(lines, i) == "" then [] else [lines[i]] + RowsFrom(lines, i + 1)
  }

  function KeysOf(rows: seq<string>, key: nat, column: nat, value: string): seq<string> {
    if rows == [] then []
    else if value == "" || Cell(rows[0], column) == value then
      [Cell(rows[0], key)] + KeysOf(rows[1..], key, column, value)
    else KeysOf(rows[1..], key, column, value)
  }

  /** get_all_keys_with_value on a table with these lines and this many columns. */
  function KeysWithValue(lines: seq<string>, columns: nat, key: nat, column: int, value: string): Result<seq<string>> {
    if column < 0 || column >= columns then Err(NoSuchColumn) else Ok(KeysOf(RowsFrom(lines, 1), key, column, value))
  }

  /** The first position of a value in a list, or -1. */
  function Position(keys: seq<string>, key: string): (p: int)
    ensures -1 <= p < |keys|
    ensures p >= 0 ==> keys[p] == key
    ensures forall k :: 0 <= k < (if p == -1 then |keys| else p) ==> keys[k] != key
  {
    if keys == [] then -1
    else if keys[0] == key then 0
    else
      var p := Position(keys[1..], key);
      if p == -1 then -1 else p + 1
  }

  function KeyPosition(lines: seq<string>, columns: nat, key: nat, value: string): Result<int> {
    var keys :- KeysWithValue(lines, columns, key, 0, "");
    Ok(Position(keys, value))
  }

  /** The column of this name, or -1. */
  function ColumnFrom(header: string, left: nat, name: string): (p: int)
    ensures -1 <= p < left
  {
    if left == 0 then -1
    else if header[..CellEnd(header)] == name then 0
    else
      var p := ColumnFrom(NextCells(header), left - 1, name);
      if p == -1 then -1 else p + 1
  }

  function ColumnNumber(lines: seq<string>, columns: nat, name: string): (p: int)
    ensures -1 <= p < columns
  {
    ColumnFrom(LineAt(lines, 0), columns, name)
  }

  function CellAt(lines: seq<string>, columns: nat, row: int, column: int): Result<string> {
    if column < 0 || column >= columns then Err(NoSuchColumn)
    else if row < 0 then Err(NoSuchRow)
    else Ok(Cell(LineAt(lines, row + 1), column))
  }

  /** push_row on the text of the file. */
  function PushedRow(text: string, columns: nat, key: nat, values: seq<string>): Result<string>
    requires key < columns
  {
    if |values| != columns then Err(BadRow)
    else
      var p :- KeyPosition(Lines(text), columns, key, values[key]);
      if p != -1 then Err(KeyExists) else Ok(AddedLine(text, RowLine(values)))
  }

  /** replace_row; row -1, which stands for a key that was not found, is the header's line. */
  function ReplacedRow(text: string, columns: nat, key: nat, row: int, values: seq<string>): Result<string>
    requires key < columns && row >= -1
  {
    if |values| != columns then Err(BadRow)
    else
      var p :- KeyPosition(Lines(text), columns, key, values[key]);
      if !(p == row || p == -1) then Err(KeyExists)
      else if LineAt(Lines(text), row + 1) == "" then Err(NoSuchLine)
      else Ok(ReplacedLine(text, row + 1, RowLine(values)))
  }
}
