/** The table file and the main loop's log of fingerprints, updated in place. */
module Stores {
  import opened SnapResult
  import opened TextFiles
  import opened CsvModel
  import opened StoreModel

  class Csv {
    const data: TextFile
    const columns: nat
    const keyColumn: nat

    /** A new table with a header and no rows. */
    constructor Create(columnNames: seq<string>, keyColumn: nat)
      requires keyColumn < |columnNames|
      ensures fresh(data) && columns == |columnNames| && this.keyColumn == keyColumn
      ensures data.text == AddedLine("", RowLine(columnNames))
    {
      var file := new TextFile("");
      var line := ValuesToLine(columnNames);
      file.AddLine(line);
      data, columns, this.keyColumn := file, |columnNames|, keyColumn;
    }

    static method ValuesToLine(values: seq<string>) returns (line: string)
      ensures line == RowLine(values)
    {
      line := "";
      var i := 0;
      while i < |values|
        invariant 0 <= i <= |values| && line + RowLine(values[i..]) == RowLine(values)
      {
        line := line + (values[i] + ";");
        assert values[i..][1..] == values[i + 1..];
        i := i + 1;
      }
    }

    static method FindDelimiter(s: string) returns (k: nat)
      ensures k == CellEnd(s)
    {
      k := 0;
      while k < |s| && s[k] != ';'
        invariant k <= |s| && k <= CellEnd(s)
      {
        k := k + 1;
      }
    }

    static method GetCellFromRow(row: string, column: nat) returns (cell: string)
      ensures cell == Cell(row, column)
    {
      hide CellEnd, NextCells, SkipCells;
      cell := row;
      var i := 0;
      while i < column
        invariant i <= column && SkipCells(row, column) == SkipCells(cell, column - i)
      {
        var pos := FindDelimiter(cell);
        SkipOne(cell, column - i);
        if pos != |cell| {
          cell := cell[pos + 1..];
        }
        i := i + 1;
      }
      assert SkipCells(cell, 0) == cell by { SkipNone(cell); }
      var pos := FindDelimiter(cell);
      if pos != 0 {
        cell := cell[..pos];
      }
    }

    method GetAllKeysWithValue(column: int, value: string) returns (r: Result<seq<string>>)
      ensures r == KeysWithValue(Lines(data.text), columns, keyColumn, column, value)
    {
      hide Lines, Cell, RowsFrom, KeysOf;
      if column < 0 || column >= columns {
        return Err(NoSuchColumn);
      }
      var keys := [];
      var i := 1;
      ghost var lines := Lines(data.text);
      ghost var all := KeysOf(RowsFrom(lines, 1), keyColumn, column, value);
      assert [] + all == all;
      var line := data.GetLine(i);
      while line != ""
        invariant i >= 1 && line == LineAt(lines, i)
        invariant keys + KeysOf(RowsFrom(lines, i), keyColumn, column, value) == all
        decreases |lines| - i
      {
        RowsStep(lines, i);
        KeysStep(RowsFrom(lines, i), keyColumn, column, value);
        ghost var more := KeysOf(RowsFrom(lines, i + 1), keyColumn, column, value);
        assert keys + ([Cell(line, keyColumn)] + more) == keys + [Cell(line, keyColumn)] + more;
        var cell := GetCellFromRow(line, column);
        if value == "" || cell == value {
          var key := GetCellFromRow(line, keyColumn);
          keys := keys + [key];
        }
        i := i + 1;
        line := data.GetLine(i);
      }
      NoMoreKeys(lines, i, keyColumn, column, value);
      assert keys + [] == keys;
      return Ok(keys);
    }

    method GetKeyPosition(key: string) returns (r: Result<int>)
      ensures r == KeyPosition(Lines(data.text), columns, keyColumn, key)
      ensures r.Ok? ==> r.value >= -1
    {
      hide Lines, KeysOf, RowsFrom;
      var keys := GetAllKeysWithValue(0, "");
      if keys.Err? {
        return Err(keys.error);
      }
      var i := 0;
      while i < |keys.value| && keys.value[i] != key
        invariant i <= |keys.value|
        invariant Position(keys.value, key) ==
                  if Position(keys.value[i..], key) == -1 then -1 else i + Position(keys.value[i..], key)
      {
        assert keys.value[i..][1..] == keys.value[i + 1..];
        i := i + 1;
      }
      return Ok(if i == |keys.value| then -1 else i);
    }

    method GetColumnNumber(name: string) returns (column: int)
      ensures column == ColumnNumber(Lines(data.text), columns, name)
    {
      hide Lines, CellEnd, NextCells, ColumnFrom;
      var header := data.GetLine(0);
      var line, i := header, 0;
      while i < columns
        invariant i <= columns
        invariant ColumnFrom(header, columns, name) ==
                  if ColumnFrom(line, columns - i, name) == -1 then -1 else i + ColumnFrom(line, columns - i, name)
      {
        var pos := FindDelimiter(line);
        ColumnStep(line, columns - i, name);
        NextOne(line);
        if line[..pos] == name {
          return i;
        }
        if pos != |line| {
          line := line[pos + 1..];
        }
        i := i + 1;
      }
      return -1;
    }

    method GetCell(row: int, column: int) returns (r: Result<string>)
      ensures r == CellAt(Lines(data.text), columns, row, column)
    {
      hide Lines, Cell;
      if column < 0 || column >= columns {
        return Err(NoSuchColumn);
      }
      if row + 1 < 1 {
        return Err(NoSuchRow);
      }
      var line := data.GetLine(row + 1);
      var cell := GetCellFromRow(line, column);
      return Ok(cell);
    }

    method PushRow(values: seq<string>) returns (r: Result<()>)
      requires keyColumn < columns
      modifies data
      ensures var pushed := PushedRow(old(data.text), columns, keyColumn, values);
              if r.Ok? then pushed == Ok(data.text) else pushed == Err(r.error) && data.text == old(data.text)
    {
      hide Lines, KeyPosition, RowLine;
      if |values| != columns {
        return Err(BadRow);
      }
      var p := GetKeyPosition(values[keyColumn]);
      if p.Err? {
        return Err(p.error);
      }
      if p.value != -1 {
        return Err(KeyExists);
      }
      var line := ValuesToLine(values);
      data.AddLine(line);
      return Ok(());
    }

    method ReplaceRow(row: int, values: seq<string>) returns (r: Result<()>)
      requires keyColumn < columns && row >= -1
      modifies data
      ensures var replaced := ReplacedRow(old(data.text), columns, keyColumn, row, values);
              if r.Ok? then replaced == Ok(data.text) else replaced == Err(r.error) && data.text == old(data.text)
    {
      hide Lines, KeyPosition, RowLine;
      if |values| != columns {
        return Err(BadRow);
      }
      var p := GetKeyPosition(values[keyColumn]);
      if p.Err? {
        return Err(p.error);
      }
      if !(p.value == row || p.value == -1) {
        return Err(KeyExists);
      }
      var line := ValuesToLine(values);
      r := data.ReplaceLine(row + 1, line);
    }
  }

  lemma NextOne(cell: string)
    ensures NextCells(cell) == if CellEnd(cell) != |cell| then cell[CellEnd(cell) + 1..] else cell
  {
  }

  lemma SkipOne(cell: string, n: nat)
    requires n > 0
    ensures SkipCells(cell, n) == SkipCells(if CellEnd(cell) != |cell| then cell[CellEnd(cell) + 1..] else cell, n - 1)
  {
  }

  lemma SkipNone(cell: string)
    ensures SkipCells(cell, 0) == cell
  {
  }

  lemma KeysStep(rows: seq<string>, key: nat, column: nat, value: string)
    requires rows != []
    ensures KeysOf(rows, key, column, value) ==
            (if value == "" || Cell(rows[0], column) == value then [Cell(rows[0], key)] else [])
            + KeysOf(rows[1..], key, column, value)
  {
    hide Cell;
  }

  lemma NoMoreKeys(lines: seq<string>, i: nat, key: nat, column: nat, value: string)
    requires LineAt(lines, i) == ""
    ensures KeysOf(RowsFrom(lines, i), key, column, value) == []
  {
  }

  lemma RowsStep(lines: seq<string>, i: nat)
    requires LineAt(lines, i) != ""
    ensures i < |lines| && RowsFrom(lines, i) == [lines[i]] + RowsFrom(lines, i + 1)
    ensures RowsFrom(lines, i)[1..] == RowsFrom(lines, i + 1)
  {
  }

  /** The log of one network. */
  class Database {
    const csv: Csv

    constructor ()
      ensures fresh(csv) && fresh(csv.data) && Table() && csv.data.text == FileOf([])
    {
      var table := new Csv.Create(COLUMN_NAMES, 0);
      NewTable();
      csv := table;
    }

    /** The table has the columns of the log. */
    predicate Table() { csv.columns == 3 && csv.keyColumn == 0 }

    /** Log an output that was just computed; say whether to notify the user. */
    method Record(output: string, date: string, again: string) returns (r: Result<bool>)
      requires Table()
      modifies csv.data
      ensures var step := StoreStep(old(csv.data.text), Sighting(output, date, again));
              if r.Ok? then step == Ok((csv.data.text, r.value))
              else step == Err(r.error) && csv.data.text == old(csv.data.text)
    {
      hide Lines, KeysWithValue, KeyPosition, CellAt, ColumnNumber, PushedRow, ReplacedRow;
      var column := csv.GetColumnNumber("output");
      var keys := csv.GetAllKeysWithValue(column, output);
      if keys.Err? {
        return Err(keys.error);
      }
      if keys.value == [] {
        var pushed := csv.PushRow([output, date, again]);
        if pushed.Err? {
          return Err(pushed.error);
        }
        return Ok(true);
      }
      var row := csv.GetKeyPosition(output);
      if row.Err? {
        return Err(row.error);
      }
      column := csv.GetColumnNumber("creation_date");
      var created := csv.GetCell(row.value, column);
      if created.Err? {
        return Err(created.error);
      }
      row := csv.GetKeyPosition(output);
      var replaced := csv.ReplaceRow(row.value, [output, created.value, date]);
      if replaced.Err? {
        return Err(replaced.error);
      }
      return Ok(false);
    }

    /** On the file of a store, logging updates the store. It fails exactly for an empty output when the store has
        entries, and then changes nothing; the text of a row with an empty output is taken for that row's key. */
    method RecordInStore(output: string, date: string, again: string, ghost store: seq<Entry>)
      returns (r: Result<bool>)
      requires Table() && csv.data.text == FileOf(store) && StoreOk(store)
      modifies csv.data
      ensures if output == "" && store != [] then r.Err? && csv.data.text == FileOf(store)
              else if ReadAsRow(store, output) then
                r == Ok(false) && csv.data.text == FileOf(store[0 := Entry(output, store[0].created, date)])
              else
                && r == Ok(Find(store, output) == -1)
                && csv.data.text == FileOf(Sight(store, Sighting(output, date, again)))
    {
      hide FileOf, Find, StoreStep, StoreOk, Sight, RowLine, Cells;
      StepRefinesExactly(store, Sighting(output, date, again));
      r := Record(output, date, again);
    }
  }
}
