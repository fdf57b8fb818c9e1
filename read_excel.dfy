/**
  The readExcel task: given whether the file exists, the workbook it parses to,
  a sheet name, a column header and a row key, return the value of the cell where
  that column meets the row keyed by the row key, or the first error met.
 */
module ReadExcelTask {
  import opened Excel

  /** The five ways the task fails, in the order it checks for them. */
  datatype Error = FileNotFound | SheetNotFound | InvalidHeaderRow | ColumnNotFound | RowNotFound

  datatype Result<+T> = Success(value: T) | Failure(error: Error)

  /** A row is keyed by `rowName` when its first cell holds exactly that text. */
  predicate Matches(row: Row, rowName: string)
  {
    GetCell(row, 1) == Text(rowName)
  }

  /** The row scan as a value: what the accumulator holds after visiting `rows`
      in order, starting from Null and overwriting it with the cell at `col` of
      every row keyed by `rowName`. */
  function LastMatch(rows: seq<Row>, col: nat, rowName: string): Cell
  {
    if rows == [] then Null
    else
      var last := rows[|rows| - 1];
      if Matches(last, rowName) then GetCell(last, col)
      else LastMatch(rows[..|rows| - 1], col, rowName)
  }

  /** Row `i` is keyed by `rowName` and no later row is. */
  ghost predicate IsLastMatch(rows: seq<Row>, rowName: string, i: int)
  {
    0 <= i < |rows| && Matches(rows[i], rowName) &&
    forall j :: i < j < |rows| ==> !Matches(rows[j], rowName)
  }

  /** The scan's outcome stated without the scan: Null when no row is keyed by
      `rowName`, otherwise the cell at `col` of the last keyed row, whatever the
      earlier keyed rows hold. */
  lemma {:induction false} LastMatchIsLastKeyedRow(rows: seq<Row>, col: nat, rowName: string)
    ensures (forall i :: 0 <= i < |rows| ==> !Matches(rows[i], rowName)) ==>
      LastMatch(rows, col, rowName) == Null
    ensures forall i :: IsLastMatch(rows, rowName, i) ==>
      LastMatch(rows, col, rowName) == GetCell(rows[i], col)
  {
    if rows != [] {
      var init := rows[..|rows| - 1];
      LastMatchIsLastKeyedRow(init, col, rowName);
      forall i | IsLastMatch(rows, rowName, i)
        ensures LastMatch(rows, col, rowName) == GetCell(rows[i], col)
      {
        if i < |rows| - 1 {
          assert IsLastMatch(init, rowName, i);
        }
      }
      if forall i :: 0 <= i < |rows| ==> !Matches(rows[i], rowName) {
        assert forall i :: 0 <= i < |init| ==> !Matches(init[i], rowName);
      }
    }
  }

  /** When some row is keyed by `rowName`, some row is the last one keyed by it. */
  lemma {:induction false} LastMatchExists(rows: seq<Row>, rowName: string, k: int)
    requires 0 <= k < |rows| && Matches(rows[k], rowName)
    ensures exists i :: IsLastMatch(rows, rowName, i)
    decreases |rows| - k
  {
    if !IsLastMatch(rows, rowName, k) {
      var j :| k < j < |rows| && Matches(rows[j], rowName);
      LastMatchExists(rows, rowName, j);
    }
  }

  /** The eachRow scan: a cellValue accumulator that starts as Null and is
      overwritten by every row keyed by `rowName`. */
  method ScanRows(rows: seq<Row>, col: nat, rowName: string) returns (cellValue: Cell)
    ensures cellValue == LastMatch(rows, col, rowName)
  {
    cellValue := Null;
    var i := 0;
    while i < |rows|
      invariant 0 <= i <= |rows|
      invariant cellValue == LastMatch(rows[..i], col, rowName)
    {
      var row := rows[i];
      if GetCell(row, 1) == Text(rowName) {
        cellValue := GetCell(row, col);
      }
      assert rows[..i + 1][..i] == rows[..i];
      i := i + 1;
    }
    assert rows[..i] == rows;
  }

  /** The rows eachRow visits: those that hold at least one value. */
  predicate HasValues(row: Row)
  {
    row.Row? && exists c :: c in row.cells && c != Null
  }

  function RowsWithValues(rows: seq<Row>): seq<Row>
  {
    if rows == [] then []
    else
      var last := rows[|rows| - 1];
      RowsWithValues(rows[..|rows| - 1]) + (if HasValues(last) then [last] else [])
  }

  /** Scanning only the rows that hold values gives the same outcome as scanning
      every row: a row without values has an empty first cell and is never keyed. */
  lemma {:induction false} SkippingEmptyRowsKeepsScan(rows: seq<Row>, col: nat, rowName: string)
    ensures LastMatch(RowsWithValues(rows), col, rowName) == LastMatch(rows, col, rowName)
  {
    if rows != [] {
      var init, last := rows[..|rows| - 1], rows[|rows| - 1];
      SkippingEmptyRowsKeepsScan(init, col, rowName);
      if HasValues(last) {
        var f := RowsWithValues(init) + [last];
        assert f[..|f| - 1] == RowsWithValues(init);
      } else {
        assert RowsWithValues(init) + [] == RowsWithValues(init);
        if last.Row? && |last.cells| >= 1 {
          assert last.cells[0] in last.cells;
        }
      }
    }
  }

  /** The task as a value: the checks in the order the task makes them. */
  function Lookup(fileExists: bool, workbook: Workbook, sheetName: string,
                  columnName: string, rowName: string): (r: Result<Cell>)
    ensures r.Success? ==> r.value != Null
  {
    if !fileExists then Failure(FileNotFound)
    else if sheetName !in workbook then Failure(SheetNotFound)
    else
      var worksheet := workbook[sheetName];
      match Values(GetRow(worksheet, 1))
      case None => Failure(InvalidHeaderRow)
      case Some(values) =>
        var columnIndex := IndexOf(values, Text(columnName));
        if columnIndex == -1 then Failure(ColumnNotFound)
        else
          var cellValue := LastMatch(worksheet.rows, columnIndex, rowName);
          if cellValue == Null then Failure(RowNotFound) else Success(cellValue)
  }

  /** The task handler: the guards with early exits, then the row scan. */
  method ReadExcel(fileExists: bool, workbook: Workbook, sheetName: string,
                   columnName: string, rowName: string) returns (r: Result<Cell>)
    ensures r == Lookup(fileExists, workbook, sheetName, columnName, rowName)
  {
    if !fileExists {
      return Failure(FileNotFound);
    }
    if sheetName !in workbook {
      return Failure(SheetNotFound);
    }
    var worksheet := workbook[sheetName];
    var headerRow := GetRow(worksheet, 1);
    var values := Values(headerRow);
    if values.None? {
      return Failure(InvalidHeaderRow);
    }
    var columnIndex := IndexOf(values.value, Text(columnName));
    if columnIndex == -1 {
      return Failure(ColumnNotFound);
    }
    var cellValue := ScanRows(worksheet.rows, columnIndex, rowName);
    if cellValue == Null {
      return Failure(RowNotFound);
    }
    return Success(cellValue);
  }

  // ----- properties of the task -----

  /** The header row's values, when the sheet exists and they form an array. */
  ghost predicate HeaderIs(workbook: Workbook, sheetName: string, values: seq<Cell>)
  {
    sheetName in workbook && Values(GetRow(workbook[sheetName], 1)) == Some(values)
  }

  /** A missing file fails with FileNotFound whatever the workbook and the arguments. */
  lemma FileNotFoundFirst(workbook: Workbook, sheetName: string, columnName: string, rowName: string)
    ensures Lookup(false, workbook, sheetName, columnName, rowName) == Failure(FileNotFound)
  {
  }

  /** A sheet the workbook lacks fails with SheetNotFound whatever the column and row. */
  lemma SheetNotFoundWhateverColumnAndRow(workbook: Workbook, sheetName: string,
                                          columnName: string, rowName: string)
    requires sheetName !in workbook
    ensures Lookup(true, workbook, sheetName, columnName, rowName) == Failure(SheetNotFound)
  {
  }

  /** InvalidHeaderRow exactly when the sheet exists and its row 1 has no values
      array; no column name or row key changes that. */
  lemma InvalidHeaderBeforeColumnSearch(workbook: Workbook, sheetName: string,
                                        columnName: string, rowName: string)
    ensures Lookup(true, workbook, sheetName, columnName, rowName) == Failure(InvalidHeaderRow)
      <==> sheetName in workbook && |workbook[sheetName].rows| >= 1 &&
           workbook[sheetName].rows[0].Unreadable?
  {
  }

  /** ColumnNotFound exactly when the header row is an array and no header cell
      holds the column name; no row key changes that. */
  lemma ColumnNotFoundIffNoHeaderCell(workbook: Workbook, sheetName: string,
                                      columnName: string, rowName: string)
    ensures Lookup(true, workbook, sheetName, columnName, rowName) == Failure(ColumnNotFound)
      <==> exists values :: HeaderIs(workbook, sheetName, values) && Text(columnName) !in values
  {
    if sheetName in workbook && Values(GetRow(workbook[sheetName], 1)).Some? {
      var values := Values(GetRow(workbook[sheetName], 1)).value;
      assert HeaderIs(workbook, sheetName, values);
    }
  }

  /** On success the value is the cell, at the first header column named
      `columnName`, of the last row keyed by `rowName`; and conversely such a
      cell that is not empty is what the task returns. */
  lemma SuccessIsLastKeyedRowCell(workbook: Workbook, sheetName: string,
                                  columnName: string, rowName: string, v: Cell)
    ensures Lookup(true, workbook, sheetName, columnName, rowName) == Success(v)
      <==> exists values, c, i ::
             HeaderIs(workbook, sheetName, values) &&
             IsFirstIndex(values, Text(columnName), c) &&
             IsLastMatch(workbook[sheetName].rows, rowName, i) &&
             v == GetCell(workbook[sheetName].rows[i], c) && v != Null
  {
    if sheetName in workbook && Values(GetRow(workbook[sheetName], 1)).Some? {
      var rows := workbook[sheetName].rows;
      var values := Values(GetRow(workbook[sheetName], 1)).value;
      var c := IndexOf(values, Text(columnName));
      if c != -1 {
        LastMatchIsLastKeyedRow(rows, c, rowName);
        if Lookup(true, workbook, sheetName, columnName, rowName) == Success(v) {
          var i :| 0 <= i < |rows| && Matches(rows[i], rowName);
          LastMatchExists(rows, rowName, i);
          var i' :| IsLastMatch(rows, rowName, i');
          assert HeaderIs(workbook, sheetName, values);
        }
      } else {
        assert forall c' :: !IsFirstIndex(values, Text(columnName), c');
      }
    }
  }

  /** RowNotFound exactly when the column is found and either no row is keyed by
      `rowName` or the last keyed row's cell in that column is empty. */
  lemma RowNotFoundIff(workbook: Workbook, sheetName: string,
                       columnName: string, rowName: string)
    ensures Lookup(true, workbook, sheetName, columnName, rowName) == Failure(RowNotFound)
      <==> exists values, c ::
             HeaderIs(workbook, sheetName, values) &&
             IsFirstIndex(values, Text(columnName), c) &&
             var rows := workbook[sheetName].rows;
             (forall i :: 0 <= i < |rows| ==> !Matches(rows[i], rowName)) ||
             (exists i :: IsLastMatch(rows, rowName, i) && GetCell(rows[i], c) == Null)
  {
    if sheetName in workbook && Values(GetRow(workbook[sheetName], 1)).Some? {
      var rows := workbook[sheetName].rows;
      var values := Values(GetRow(workbook[sheetName], 1)).value;
      var c := IndexOf(values, Text(columnName));
      if c != -1 {
        assert HeaderIs(workbook, sheetName, values);
        LastMatchIsLastKeyedRow(rows, c, rowName);
        if exists i :: 0 <= i < |rows| && Matches(rows[i], rowName) {
          var i :| 0 <= i < |rows| && Matches(rows[i], rowName);
          LastMatchExists(rows, rowName, i);
        }
      } else {
        assert forall c' :: !IsFirstIndex(values, Text(columnName), c');
      }
    }
  }

  /** Later keyed rows overwrite earlier ones: with two keyed rows, the later
      one decides the outcome, even when the earlier one holds a value and the
      later one's cell is empty (then the task reports RowNotFound). */
  lemma LastKeyedRowWins(workbook: Workbook, sheetName: string, columnName: string,
                         rowName: string, values: seq<Cell>, c: nat, i: nat, j: nat)
    requires HeaderIs(workbook, sheetName, values) && IsFirstIndex(values, Text(columnName), c)
    requires i < j && IsLastMatch(workbook[sheetName].rows, rowName, j)
    requires Matches(workbook[sheetName].rows[i], rowName)
    ensures var rows := workbook[sheetName].rows;
      Lookup(true, workbook, sheetName, columnName, rowName) ==
        if GetCell(rows[j], c) == Null then Failure(RowNotFound) else Success(GetCell(rows[j], c))
  {
    var rows := workbook[sheetName].rows;
    assert IndexOf(values, Text(columnName)) == c;
    LastMatchIsLastKeyedRow(rows, c, rowName);
  }

  /** Row 1 is scanned too: when the header row is the only row keyed by
      `rowName`, the task returns the header's own cell, the column name. */
  lemma HeaderRowIsScanned(workbook: Workbook, sheetName: string, columnName: string, rowName: string)
    requires sheetName in workbook && IsLastMatch(workbook[sheetName].rows, rowName, 0)
    requires Text(columnName) in Values(workbook[sheetName].rows[0]).value
    ensures Lookup(true, workbook, sheetName, columnName, rowName) == Success(Text(columnName))
  {
    var rows := workbook[sheetName].rows;
    var header := rows[0];
    ValuesIndexAddressesCell(header, columnName);
    LastMatchIsLastKeyedRow(rows, IndexOf(Values(header).value, Text(columnName)), rowName);
  }

  /** The lookup reads the workbook and changes nothing: the same arguments give
      the same outcome, and the outcome depends on the workbook only through the
      named sheet. */
  lemma OnlyTheNamedSheetMatters(workbook: Workbook, other: Workbook, sheetName: string,
                                 columnName: string, rowName: string)
    requires sheetName in workbook <==> sheetName in other
    requires sheetName in workbook ==> workbook[sheetName] == other[sheetName]
    ensures Lookup(true, workbook, sheetName, columnName, rowName) ==
            Lookup(true, other, sheetName, columnName, rowName)
  {
  }

  /** A small workbook with a Sheet1 holding a REQUEST_PAYLOAD column and a row
      keyed Two, the lookup the step definition makes; the ID column, the row One
      and the error cases around it are illustrations of this model. */
  function ApiWorkbook(): Workbook
  {
    map["Sheet1" := Sheet([
      Row([Text("ID"), Text("REQUEST_PAYLOAD")]),
      Row([Text("One"), Text("{\"id\":1}")]),
      Row([Text("Two"), Text("{...}")])
    ])]
  }

  lemma ApiScenarios()
    ensures Lookup(true, ApiWorkbook(), "Sheet1", "REQUEST_PAYLOAD", "Two") == Success(Text("{...}"))
    ensures Lookup(true, ApiWorkbook(), "Sheet1", "MISSING_COL", "Two") == Failure(ColumnNotFound)
    ensures Lookup(true, ApiWorkbook(), "Sheet1", "REQUEST_PAYLOAD", "NoSuchRow") == Failure(RowNotFound)
    ensures Lookup(true, ApiWorkbook(), "Sheet2", "REQUEST_PAYLOAD", "Two") == Failure(SheetNotFound)
    ensures Lookup(false, ApiWorkbook(), "Sheet1", "REQUEST_PAYLOAD", "Two") == Failure(FileNotFound)
  {
    var rows := ApiWorkbook()["Sheet1"].rows;
    var values := [Null, Text("ID"), Text("REQUEST_PAYLOAD")];
    assert rows[0] == Row([Text("ID"), Text("REQUEST_PAYLOAD")]);
    assert [Null] + rows[0].cells == values;
    assert IndexOf(values, Text("REQUEST_PAYLOAD")) == 2;
    assert IndexOf(values, Text("MISSING_COL")) == -1;
    assert rows[..2][..1] == rows[..1];
    assert LastMatch(rows, 2, "Two") == Text("{...}");
    assert LastMatch(rows[..1], 2, "NoSuchRow") == Null;
    assert LastMatch(rows[..2], 2, "NoSuchRow") == Null;
    assert LastMatch(rows, 2, "NoSuchRow") == Null;
  }
}
