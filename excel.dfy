/**
  The spreadsheet as the lookup task sees it once the workbook library has parsed
  the file: a workbook is a set of named worksheets, a worksheet a grid of rows,
  a row a sequence of cells addressed by 1-based column numbers.
 */
module Excel {

  datatype Option<+T> = None | Some(value: T)

  /** A cell value. Text is what the lookup keys are compared with; every other
      kind of value (number, date, formula, rich text) is kept abstract and is
      told apart only by identity. Null is an empty cell. */
  datatype Cell = Null | Text(text: string) | Other(id: nat)

  /** A row. Row(cells) holds the cells of columns 1, 2, ... in order
      (cells[c - 1] is column c); Unreadable is a row for which the library
      reports no values array. */
  datatype Row = Row(cells: seq<Cell>) | Unreadable

  /** A worksheet: rows[i] is row number i + 1, rows without values included. */
  datatype Sheet = Sheet(rows: seq<Row>)

  /** A parsed workbook, its worksheets by name. */
  type Workbook = map<string, Sheet>

  /** The value of the cell at 1-based column `col` of a row; a column past the
      end of the row, or of a row without values, reads as an empty cell. */
  function GetCell(row: Row, col: nat): Cell
  {
    match row
    case Unreadable => Null
    case Row(cells) => if 1 <= col <= |cells| then cells[col - 1] else Null
  }

  /** The row with 1-based number `n`; a row the sheet does not hold is an empty row. */
  function GetRow(sheet: Sheet, n: nat): Row
    requires n >= 1
  {
    if n <= |sheet.rows| then sheet.rows[n - 1] else Row([])
  }

  /** The row's values array as the library hands it out: 1-based, slot 0 empty,
      slot c the value of column c. None when the row has no such array. The
      library's array is sparse; its holes (slot 0 and empty cells) are Null here,
      which a text key never equals. */
  function Values(row: Row): (vs: Option<seq<Cell>>)
    ensures row.Unreadable? <==> vs.None?
    ensures vs.Some? ==> |vs.value| == |row.cells| + 1 && vs.value[0] == Null
    ensures vs.Some? ==> forall c :: 1 <= c < |vs.value| ==> vs.value[c] == GetCell(row, c)
  {
    match row
    case Unreadable => None
    case Row(cells) => Some([Null] + cells)
  }

  /** `c` is the position of the first occurrence of `key` in `vs`. */
  ghost predicate IsFirstIndex(vs: seq<Cell>, key: Cell, c: int)
  {
    0 <= c < |vs| && vs[c] == key && forall j :: 0 <= j < c ==> vs[j] != key
  }

  /** Array indexOf with strict equality: the first position holding `key`, or -1. */
  function IndexOf(vs: seq<Cell>, key: Cell): (c: int)
    ensures c == -1 <==> key !in vs
    ensures c != -1 ==> IsFirstIndex(vs, key, c)
    decreases |vs|
  {
    if vs == [] then -1
    else if vs[0] == key then 0
    else
      var c' := IndexOf(vs[1..], key);
      if c' == -1 then -1 else c' + 1
  }

  /** The column number indexOf finds in a row's values array addresses, through
      GetCell, the very cell that holds the key: slot 0 is empty, so a text key is
      never found there, and slot c is column c. */
  lemma ValuesIndexAddressesCell(row: Row, name: string)
    requires Values(row).Some?
    ensures var c := IndexOf(Values(row).value, Text(name));
      c != -1 ==> c >= 1 && GetCell(row, c) == Text(name)
    ensures IndexOf(Values(row).value, Text(name)) == -1 <==>
      forall c :: 1 <= c <= |row.cells| ==> GetCell(row, c) != Text(name)
  {
  }
}
