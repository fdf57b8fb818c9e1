# readExcel cell lookup, modelled in Dafny

This project models the `readExcel` task that the Cypress configuration
registers (`cypress.config.ts`). Test steps call the task with a file path, a
sheet name, a column header and a row key. The task:

1. fails with *file not found* when the file does not exist;
2. fails with *sheet not found* when the workbook has no sheet of that name;
3. fails with *header row values are not valid* when row 1's `values` is
   missing or is not an array;
4. takes as column the first position in row 1's `values` that holds the column
   name (`indexOf`), failing with *column not found* when there is none;
5. scans every row in order and overwrites a `cellValue` accumulator, which
   starts as `null`, with the cell at that column of every row whose first cell
   equals the row key;
6. fails with *row not found* when the accumulator ends `null`, and otherwise
   returns it.

Files:

- `excel.dfy`, module `Excel`, is the spreadsheet as the task sees it after
  exceljs has parsed it. A workbook maps sheet names to sheets. A sheet is a
  sequence of rows, where `rows[i]` is row `i + 1`. A row holds the cells of
  columns 1, 2, …. `Values` gives exceljs' 1-based `values` array, whose slot 0 is
  always empty. exceljs' array is sparse: slot 0 and empty cells are holes, and
  trailing empty cells are absent. The model fills the holes with `Null`, which a
  text key never equals, so `indexOf` finds the same position. `GetCell` is
  `row.getCell(col).value`. `GetRow` is `worksheet.getRow(n)`. `IndexOf` is
  `Array.prototype.indexOf` with strict equality.
- `read_excel.dfy`, module `ReadExcelTask`, holds the task itself.
  - `Lookup` is the whole handler as a pure function, with the checks in their
    order.
  - `ReadExcel` is the handler written as a method with early exits. It calls
    `ScanRows`, the `eachRow` loop over the mutable accumulator.
  - Each method is proved equal to its specification function. The properties
    in the table below are proved about those functions.

Cells are `Null`, `Text(s)` or `Other(id)`. The column name and row key are
strings, so they can only ever equal a `Text` cell. Every other kind of exceljs
value is kept abstract and compared by identity.

The scan does not stop at the first matching row. `cellValue` is overwritten
for every matching row, so the last matching row wins (`LastKeyedRowWins`).
An empty cell in the last matching row is reported as "row not found", even
when an earlier matching row holds a value.

## Model

| member | source | states |
|---|---|---|
| `Excel.Values` | cypress.config.ts:36 | the values array is missing exactly for a row without one; otherwise it is one longer than the row, slot 0 is empty and slot `c` is column `c` |
| `Excel.IndexOf` | cypress.config.ts:42 | -1 exactly when the key occurs nowhere; otherwise the key's first position |
| `Excel.ValuesIndexAddressesCell` | cypress.config.ts:36-50 | a column index found in row 1's values is at least 1, and `getCell` at it yields the column name; not found exactly when no column of row 1 holds the name |
| `ReadExcelTask.ScanRows` | cypress.config.ts:47-52 | the accumulator loop ends holding `LastMatch` of the rows: `null`, overwritten by each keyed row's cell at the column |
| `ReadExcelTask.LastMatchIsLastKeyedRow` | cypress.config.ts:47-52 | the scan gives `null` when no row is keyed by the row key; otherwise it gives the cell of the last keyed row, whatever earlier keyed rows hold |
| `ReadExcelTask.SkippingEmptyRowsKeepsScan` | cypress.config.ts:48 | scanning only the rows that hold values, as `eachRow` does, gives the same result as scanning every row |
| `ReadExcelTask.Lookup` | cypress.config.ts:54-58 | a successful lookup never returns an empty (`null`) cell |
| `ReadExcelTask.ReadExcel` | cypress.config.ts:23-59 | the handler, with its guards, `indexOf` and row scan, returns exactly `Lookup` of its arguments; it reads the workbook and changes nothing |
| `ReadExcelTask.FileNotFoundFirst` | cypress.config.ts:24-26 | a missing file gives FileNotFound for every workbook, sheet, column and row |
| `ReadExcelTask.SheetNotFoundWhateverColumnAndRow` | cypress.config.ts:30-33 | a sheet name the workbook lacks gives SheetNotFound for every column and row |
| `ReadExcelTask.InvalidHeaderBeforeColumnSearch` | cypress.config.ts:35-40 | InvalidHeaderRow holds exactly when the sheet exists and row 1 has no values array, for every column name and row key |
| `ReadExcelTask.ColumnNotFoundIffNoHeaderCell` | cypress.config.ts:42-45 | ColumnNotFound holds exactly when row 1's values form an array and none of them is the column name, for every row key |
| `ReadExcelTask.SuccessIsLastKeyedRowCell` | cypress.config.ts:42-58 | success with `v` holds exactly when `v` is non-empty and is the cell of the last keyed row at the first header column with the column name |
| `ReadExcelTask.RowNotFoundIff` | cypress.config.ts:47-56 | RowNotFound holds exactly when the column is found and either no row is keyed, or the last keyed row's cell in that column is empty |
| `ReadExcelTask.LastKeyedRowWins` | cypress.config.ts:48-56 | with an earlier and a later keyed row, the later one decides: its cell is returned, or RowNotFound when that cell is empty |
| `ReadExcelTask.HeaderRowIsScanned` | cypress.config.ts:35-52 | row 1 takes part in the scan: when it is the only row keyed by the row key, the lookup returns the column name itself |
| `ReadExcelTask.OnlyTheNamedSheetMatters` | cypress.config.ts:28-30 | two workbooks that agree on the named sheet give the same result; the lookup is a read-only function of its arguments |
| `ReadExcelTask.ApiScenarios` | cypress/e2e/stepDefinitions/ytesting.ts:19-27 | on a small workbook with a REQUEST_PAYLOAD column and a row keyed Two, the step definition's lookup gives that row's payload; around it, an unknown column, unknown row, unknown sheet and missing file each give their error |

## Left out

- File existence (`fs.existsSync`) is a boolean parameter. The workbook that `workbook.xlsx.readFile` parses is a parameter too. A file that exists but fails to parse, which rejects the promise, is not modelled.
- The Promise and `.then` asynchrony plays no part in the result and is not modelled.
- Cell value types are not modelled: rich text, formulas, dates and numbers are all `Other(id)`, compared only by identity.
- Error messages are modelled as the five error kinds, not as strings.
- With exceljs, `values` is always an array, so the InvalidHeaderRow guard cannot fire in practice. The model keeps the guard reachable through the `Unreadable` row.
- `getCell(0)` is never reached, because row 1's slot 0 is empty (`ValuesIndexAddressesCell`). The model reads column 0 as empty and does not model what exceljs would do there.
- The cucumber preprocessor and bundler wiring (cypress.config.ts:12-19) and the `defineConfig` settings (cypress.config.ts:67-75) configure external frameworks. They hold no lookup logic.
- `ExcelUtilities.getCellValue` (cypress/support/ExcelUtilities.ts:2-4) only forwards its four arguments to the task. Its behaviour is that of `ReadExcel`.
- The step definition's `expect(value).to.exist` (cypress/e2e/stepDefinitions/ytesting.ts:26) follows from `Lookup`'s promise that a success is never empty.
