# ExcelUtil formula translation and row operations, in Dafny

This project models the core of `ExcelUtil`, a helper class over the POI
spreadsheet library, and proves properties of the model:

- **The formula row translator** (`moveFormula`, `calFormulaNum`,
  `moveFormulaByInsert`). It scans formula text character by character. It
  treats every maximal run of ASCII digits as a 1-based row number. A run
  protected by the absolute marker `$` is kept verbatim. Any other run is
  moved by the shift distance when it lies at or below the insert row.
- **The row and cell operations** built on the translator (`copyValue`,
  `copyFormula`, `copyCell`, `copyRow`, `updateFormula`, `insertRow`,
  `moveRow`). They work over an abstract sheet of rows and cells.

Modules:

- `Decimal` (`decimal.dfy`): how `Integer.parseInt` reads and
  `String.valueOf(int)` writes decimal text, over unbounded integers, with
  both round trips.
- `Formula` (`formula.dfy`): the specification function `Scan` follows the
  source's loop, and `Moved` is the value `moveFormula` returns. The method
  `MoveFormula` keeps the source's loop over the characters, with the buffer
  and the flag, and is proved equal to `Moved`. The file also proves that
  characters other than digits pass through in order.
- `FormulaTokens` (`tokens.dfy`): an independent description at the level of
  tokens (digit runs and single characters). It is proved to agree with
  the character scan on every input.
- `FormulaExamples` (`formula_examples.dfy`): worked instances, including
  the quirks the source has.
- `Grid` (`grid.dfy`): the part of POI's `HSSFSheet`, `HSSFRow` and
  `HSSFCell` that ExcelUtil uses. These are classes with mutable fields,
  and `shiftRows` has an abstract contract.
- `ExcelUtil` (`excel_util.dfy`): the copy, insert and move operations as
  methods that update the sheet in place. The specification functions
  (`CellCopied`, `CopiedColumn`, `Updated`) state what each cell ends up
  holding.

Behaviour of the source that the model keeps:

- The `$` flag is set before the pending run is flushed, so a run directly
  followed by `$` is kept verbatim (`A1$B2` gives `A1$B3`).
- The flag stays armed across any number of other characters, so `$A1`
  protects the row number as well.
- Every digit run counts as a row number, including constants and both
  halves of `1.5`.
- A run that is not protected is written back through `parseInt` and
  `valueOf`, so its leading zeros are dropped even when the run does not
  move. A protected run keeps its zeros.
- A negative shift can make a row number negative. The result then carries
  a `-`.
- After the shift, `moveRow` rescans only the rows below the new last index.
  The last moved row is therefore not rewritten.
- `moveRow` increments the insert point, and `calFormulaNum` increments it
  again. A row number `n` moves when `n >= max(insertPoint, 0) + 2`.
- `moveRow` rewrites blank formulas as well, because it has no blank check.
  `copyFormula` and `updateFormula` skip blank formulas.

## Model

| member | source | states |
|---|---|---|
| Decimal.NatToDigitsCanonical | src/org/sword/chengn/excel/ExcelUtil.java:226-227 | the text `String.valueOf` writes for a natural number is canonical (digits, no leading zero) and reads back as that number |
| Decimal.IntToStringRoundTrip | src/org/sword/chengn/excel/ExcelUtil.java:225-227 | writing any integer as `String.valueOf` does and reading it back with `parseInt` gives the integer; the text is canonical, with a `-` only for negatives |
| Decimal.CanonicalRoundTrip | src/org/sword/chengn/excel/ExcelUtil.java:225-226 | reading canonical digit text and writing the value again gives the text back, so leading zeros are the only thing the re-rendering of a run loses |
| Decimal.CanonicalInjective | src/org/sword/chengn/excel/ExcelUtil.java:225-227 | two canonical texts are equal exactly when their values are equal |
| Formula.CalFormulaNum | src/org/sword/chengn/excel/ExcelUtil.java:223-236 | the result is canonical integer text whose value is n + moveRowCount when insertPoint + 1 <= n and n otherwise, n being the run's value; it has no `-` exactly when that value is non-negative |
| Formula.MoveFormula | src/org/sword/chengn/excel/ExcelUtil.java:170-214 | the loop over the characters, with its buffered run and marker flag, returns `Moved`: the formula itself for a zero shift, otherwise the scan |
| Formula.MovedZero | src/org/sword/chengn/excel/ExcelUtil.java:171-173 | with a zero shift the formula comes back unchanged, whatever the insert row |
| Formula.MovedNoDigits | src/org/sword/chengn/excel/ExcelUtil.java:180-201 | a formula without digits comes back unchanged |
| Formula.MovedKeepsNonDigits | src/org/sword/chengn/excel/ExcelUtil.java:180-211 | with a non-negative shift, deleting every digit from the result gives the formula with every digit deleted |
| Formula.ScanKeepsNonDigits | src/org/sword/chengn/excel/ExcelUtil.java:180-211 | the same for the scan from any state (pending run and flag), by induction on the rest of the input |
| Formula.ScanNoDigits | src/org/sword/chengn/excel/ExcelUtil.java:180-201 | from an empty buffer, in either flag state, text without digits is scanned back to itself |
| Formula.ScanStep | src/org/sword/chengn/excel/ExcelUtil.java:181-200 | one loop round: a digit only extends the buffer; any other character sets the flag if it is `$`, flushes the buffer (verbatim if armed, clearing the flag) and is copied |
| Formula.MoveFormulaRows | src/org/sword/chengn/excel/ExcelUtil.java:143-145 | the two-argument moveFormula is the translation with insert row 0 |
| Formula.MoveFormulaByInsert | src/org/sword/chengn/excel/ExcelUtil.java:246-248 | moveFormulaByInsert is the same translation as the three-argument moveFormula |
| Formula.NegativeShiftAddsMinus | src/org/sword/chengn/excel/ExcelUtil.java:227 | with a negative shift, `A1` moved by -2 becomes `A-1`; the characters other than digits then differ from the input's |
| FormulaTokens.TokensSpell | src/org/sword/chengn/excel/ExcelUtil.java:180-185 | the tokens of a formula spell it back; every run is non-empty and maximal; the first token is a run exactly when the formula starts with a digit |
| FormulaTokens.AbsorbDigits | src/org/sword/chengn/excel/ExcelUtil.java:182-185 | digits at the front of the input only extend the pending run, and the scan continues after them |
| FormulaTokens.ScanIsRewrite | src/org/sword/chengn/excel/ExcelUtil.java:180-211 | for every input and flag state, the scan equals the token rewrite: a run directly followed by `$` is kept, an armed run is kept, any other run goes through calFormulaNum, and every run disarms |
| FormulaTokens.MovedIsRewrite | src/org/sword/chengn/excel/ExcelUtil.java:170-214 | with a non-zero shift, moveFormula is the token rewrite of the formula's tokens, starting unarmed |
| FormulaExamples.ZeroShiftExample | src/org/sword/chengn/excel/ExcelUtil.java:171-173 | `A1+B2` with shift 0 is unchanged for every insert row |
| FormulaExamples.CopyExample | src/org/sword/chengn/excel/ExcelUtil.java:170-214 | `A1+B2` moved by 1 below row 0 is `A2+B3` |
| FormulaExamples.InsertExample | src/org/sword/chengn/excel/ExcelUtil.java:229-234 | `A1+B5` moved by 2 with insert point 4 is `A1+B7`: 1 is below 5 and stays, 5 moves |
| FormulaExamples.MarkerExample | src/org/sword/chengn/excel/ExcelUtil.java:186-194 | `$A$1+B2` moved by 1 is `$A$1+B3` |
| FormulaExamples.MixedReferenceExample | src/org/sword/chengn/excel/ExcelUtil.java:186-194 | `$A1+B2` moved by 1 is `$A1+B3`: the marker on the column also protects the row |
| FormulaExamples.MarkerAfterRunExample | src/org/sword/chengn/excel/ExcelUtil.java:186-193 | `A1$B2` moved by 1 is `A1$B3`: the marker after a run protects it, and the next run moves |
| FormulaExamples.CarryOverExample | src/org/sword/chengn/excel/ExcelUtil.java:186-206 | `$A+B1` moved by 1 is unchanged: the flag is still armed at the trailing run |
| FormulaExamples.LeadingZerosExample | src/org/sword/chengn/excel/ExcelUtil.java:223-236 | calFormulaNum of `007` below insert point 10 is `7`, and `A007` becomes `A7` |
| FormulaExamples.ProtectedZerosExample | src/org/sword/chengn/excel/ExcelUtil.java:203-206 | `$A007` moved by 1 is unchanged: a protected run keeps its zeros |
| Grid.Row.CreateCell | src/org/sword/chengn/excel/ExcelUtil.java:53 | createCell returns a fresh blank cell of this row at the column, replacing any cell there, and raises the last cell number past the column |
| Grid.Sheet.CreateRow | src/org/sword/chengn/excel/ExcelUtil.java:271 | createRow puts a fresh empty row at the index and keeps the sheet valid |
| Grid.Sheet.ShiftRows | src/org/sword/chengn/excel/ExcelUtil.java:268 | shiftRows moves the rows in [start, end] down by n, overwriting the destinations and leaving the vacated places empty; moved rows take their new index; the sheet stays valid |
| Grid.Sheet.Renumber | src/org/sword/chengn/excel/ExcelUtil.java:302 | the rows in [start, end] take their index plus n, and the others keep theirs |
| Grid.ShiftedRows | src/org/sword/chengn/excel/ExcelUtil.java:302 | the row map after the shift satisfies the shift relation `ShiftedFrom` |
| Grid.ShiftedFromUnique | src/org/sword/chengn/excel/ExcelUtil.java:302 | the shift relation determines the new row map |
| Grid.Sheet.CellsInHolds | src/org/sword/chengn/excel/ExcelUtil.java:309-312 | in a valid sheet, the cells of a range of rows are the cells in the sheet whose row index is in the range |
| ExcelUtil.CopyValue | src/org/sword/chengn/excel/ExcelUtil.java:86-116 | the value goes over for string, boolean, numeric and error cells, and the formula text for formula cells; blank and unsupported cells copy nothing |
| ExcelUtil.WideSpaceIsBlank | src/org/sword/chengn/excel/ExcelUtil.java:126-128 | the blank test is Java's `Character.isWhitespace`, so a formula of non-ASCII separators such as U+3000 is blank and copyFormula leaves the target as it was |
| ExcelUtil.CopyFormula | src/org/sword/chengn/excel/ExcelUtil.java:123-135 | a non-blank formula of a formula cell is stored translated by the target's row index minus the source's; otherwise nothing changes |
| ExcelUtil.CopyCell | src/org/sword/chengn/excel/ExcelUtil.java:65-79 | nothing for a null target; otherwise the target takes the comment (when present), style and type, then the value, then the translated formula |
| ExcelUtil.CopiedColumnFields | src/org/sword/chengn/excel/ExcelUtil.java:65-135 | a fresh cell receiving a copy holds the source's type, style and comment, its value for a value-carrying type, and its formula (translated when not blank) for a formula cell |
| ExcelUtil.CopySameRow | src/org/sword/chengn/excel/ExcelUtil.java:65-135 | a copy at distance 0 into a fresh cell reproduces the source exactly when the source holds a value only for a value-carrying type and a formula only in a formula cell |
| ExcelUtil.CopyTwice | src/org/sword/chengn/excel/ExcelUtil.java:65-135 | copying the same source twice leaves what copying once leaves |
| ExcelUtil.CopyRow | src/org/sword/chengn/excel/ExcelUtil.java:46-58 | nothing for a null target; otherwise the height goes over, every column below the source's last cell number holds a fresh cell with a copy of the source cell (a blank cell where the source has none), the other columns keep their cells, and the last cell number rises to the source's |
| ExcelUtil.CopyIntoRow | src/org/sword/chengn/excel/ExcelUtil.java:49-57 | the loop of copyRow: the same per-column result with fresh cells, and the target's last cell number rises to the source's |
| ExcelUtil.CopyColumn | src/org/sword/chengn/excel/ExcelUtil.java:52-56 | one round of the loop: a fresh cell at the column holding the copy; every other column of both rows is unchanged, and the target keeps its other cell objects |
| ExcelUtil.UpdateFormula | src/org/sword/chengn/excel/ExcelUtil.java:153-161 | a formula cell with a non-blank formula takes the formula translated by the count below the point; any other cell keeps its formula |
| ExcelUtil.InsertRow | src/org/sword/chengn/excel/ExcelUtil.java:267-273 | the rows from rowIndex to the last move down by one; a fresh row at rowIndex holds the template's height and, column by column, copies of its cells translated by the distance from the template, and no other cells; the last row number does not decrease and covers rowIndex |
| ExcelUtil.OpenRow | src/org/sword/chengn/excel/ExcelUtil.java:268-271 | after the shift getRow finds no row at rowIndex, so a fresh empty row is created there; the template's cells are untouched |
| ExcelUtil.InsertRows | src/org/sword/chengn/excel/ExcelUtil.java:275-277 | the four-argument insertRow changes nothing |
| ExcelUtil.UpdateRowFormulas | src/org/sword/chengn/excel/ExcelUtil.java:311-319 | every formula cell of the row takes its translated formula, blank or not; every other cell keeps its formula |
| ExcelUtil.UpdateRowAt | src/org/sword/chengn/excel/ExcelUtil.java:310-319 | one round of the row loop: exactly the formula cells of the row at index i are rewritten |
| ExcelUtil.UpdateMovedRows | src/org/sword/chengn/excel/ExcelUtil.java:309-320 | exactly the formula cells of the rows from first to last - 1 (upper bound excluded) are rewritten |
| ExcelUtil.ShiftMovedRows | src/org/sword/chengn/excel/ExcelUtil.java:301-306 | after the shift, the rows the rescan visits hold exactly the cells of the moved rows except the last one; no formula or type changes |
| ExcelUtil.MoveRowsDown | src/org/sword/chengn/excel/ExcelUtil.java:301-320 | the shift, then every formula cell of the moved rows except the last takes its translated formula; every other cell keeps its formula |
| ExcelUtil.MoveRowThreshold | src/org/sword/chengn/excel/ExcelUtil.java:300-316 | with the insert point incremented here and again by calFormulaNum, a row number n moves exactly when n >= max(insertPoint, 0) + 2 |
| ExcelUtil.MoveRowAt | src/org/sword/chengn/excel/ExcelUtil.java:297-321 | nothing changes when moveCount <= 0, whatever the sheet and start index; otherwise the rows from startRowIndex to the last move down by moveCount, the last row number does not decrease, and the formula cells of the moved rows except the last are translated below max(insertPoint, 0) + 1; every other cell keeps its formula |
| ExcelUtil.MoveRow | src/org/sword/chengn/excel/ExcelUtil.java:286-288 | the two-argument moveRow is moveRow with insert point startRowIndex - moveCount - 1: a no-op when moveCount <= 0, otherwise the same shift and translation |

## Left out

- `setCellValue` (ExcelUtil.java:328-352) is not part of this model. It dispatches on the runtime type of a Java object into POI setters for dates, calendars, floating-point numbers and decimals.
- The zero-argument `moveFormula()` stub, which returns null, is not modelled.
- Cell values are opaque tokens. How POI stores numbers and dates is not modelled: `HSSFDateUtil.isCellDateFormatted`, `getDateCellValue` and `getNumericCellValue` are left out. The numeric branch ends with the plain number in both of its cases.
- The error log for an unsupported cell type is not modelled, because it is output only. Such a cell copies no value.
- Digits are the ASCII `'0'..'9'`. `StringUtils.isNumeric` also accepts other Unicode digits, which the model does not treat as digits.
- Integers are unbounded, so no 32-bit failure or wrap-around of the source is modelled. `Integer.parseInt` throws on a run above 2147483647 (ExcelUtil.java:225). These additions wrap around at 32 bits in Java:
  - `rowNum + moveRowCount` (:227);
  - `insertPoint++` in calFormulaNum (:224);
  - `insertPoint + 1` in moveRow (:316);
  - `startRowIndex += moveCount` and `lastRowNum += moveCount` (:305-306).
- ExcelUtil.MoveRowThreshold: holds over unbounded integers only. In Java, with an insert point of 2147483646 or more, the increments wrap to a negative insert row, and then every row number moves.
- ExcelUtil.IsWhitespace: follows `Character.isWhitespace` of current Java. Java releases before 9 also count U+180E as whitespace.
- Styles and comments are opaque identifiers. Whether the copy shares the comment object or copies it is not modelled.
- `setCellType` is modelled as setting the type tag only. POI's conversion of the value already in the cell is not modelled.
- Grid.Sheet.ShiftRows: its real POI behaviour is not modelled. POI moves cells between row objects and adjusts merged regions. The model moves whole rows and states only that the last row number does not decrease, not its exact new value.
- Grid.Sheet.ShiftRows: moving whole rows also changes what a row object stands for. Take `insertRow(sheet, sheet.getRow(k), j)` with a template row from the shifted range (`k >= j`). In POI the template object stays at index k and receives the cells shifted into it. The template is then the row that came from index k - 1, or an empty row when k = j. In the model the template object moves to index k + 1 with its own cells, and the new row copies the template's original cells.
- Grid.Sheet.ShiftRows: it supports only downward shifts (n > 0), the only direction ExcelUtil uses.
- Grid.Row and Grid.Sheet keep `lastCellNum` and `lastRowNum` only as upper bounds of the columns and rows in use. POI recomputes them exactly.
- ExcelUtil.OpenRow: insertRow's branch that reuses a row found at rowIndex after the shift cannot occur under the abstract shift. The shift always leaves that place empty, so a new row is always created.
- ExcelUtil.MoveRowAt: when moveCount > 0, requires a non-negative start index and every row it rescans to exist. The source would throw a NullPointerException at a missing row. With moveCount <= 0 any valid sheet and start index are accepted.
- ExcelUtil.MoveRow: the same requirement, for the same reason.
- Nothing here is concurrent, and no I/O other than logging is involved.
