/** The row and cell operations of ExcelUtil: copying a cell, a cell's value
    and its formula, copying a row, inserting a row and moving rows, over the
    abstract sheet of module Grid. */
module ExcelUtil {
  import opened Decimal
  import opened Formula
  import opened Grid

  /** Character.isWhitespace: space, '\t' to '\r', the four separators
      U+001C to U+001F, and the Unicode space, line and paragraph
      separators other than the no-break spaces U+00A0, U+2007 and U+202F. */
  predicate IsWhitespace(c: char) {
    c == ' ' || '\t' <= c <= '\r' || '\U{1C}' <= c <= '\U{1F}'
    || c == '\U{1680}' || '\U{2000}' <= c <= '\U{2006}' || '\U{2008}' <= c <= '\U{200A}'
    || c == '\U{2028}' || c == '\U{2029}' || c == '\U{205F}' || c == '\U{3000}'
  }

  /** StringUtils.isBlank: empty, or whitespace only. */
  predicate IsBlank(s: string) {
    forall i :: 0 <= i < |s| ==> IsWhitespace(s[i])
  }

  /** A formula of non-ASCII whitespace only is blank, so copyFormula
      leaves the target as it was. */
  lemma WideSpaceIsBlank(t: CellData, moveCount: int)
    ensures IsBlank("\U{3000}\U{2028}")
    ensures FormulaCopied(CellData(FormulaCell, NoValue, "\U{3000}", DefaultStyle, None), t, moveCount) == t
  {
  }

  /** The cell types whose value copyValue copies. */
  predicate CarriesValue(t: CellType) {
    t == StringCell || t == BooleanCell || t == NumericCell || t == ErrorCell
  }

  /** What copyValue leaves in target data `t` for source data `s`. */
  function ValueCopied(s: CellData, t: CellData): CellData {
    if CarriesValue(s.cellType) then t.(value := s.value)
    else if s.cellType == FormulaCell then t.(formula := s.formula)
    else t
  }

  /** What copyFormula leaves in target data `t` for source data `s`, the
      target row lying `moveCount` rows below the source row. */
  function FormulaCopied(s: CellData, t: CellData, moveCount: int): CellData {
    if s.cellType != FormulaCell || IsBlank(s.formula) then t
    else t.(formula := Moved(s.formula, moveCount, 0))
  }

  /** What copyCell leaves in target data `t` for source data `s`: comment
      (when the source has one), style and type first, then the value, then
      the translated formula. */
  function CellCopied(s: CellData, t: CellData, moveCount: int): CellData {
    var header := t.(
      comment := if s.comment.Some? then s.comment else t.comment,
      style := s.style,
      cellType := s.cellType);
    FormulaCopied(s, ValueCopied(s, header), moveCount)
  }

  /** copyValue: the value of the source's type goes to the target; a blank
      or unsupported source copies nothing. */
  method CopyValue(source: Cell, target: Cell)
    modifies target
    ensures target.Data() == ValueCopied(old(source.Data()), old(target.Data()))
  {
    match source.cellType
    case StringCell =>
      target.value := source.value;
    case BooleanCell =>
      target.value := source.value;
    case NumericCell =>
      // a date-formatted number and a plain one both end as the number
      target.value := source.value;
    case ErrorCell =>
      target.value := source.value;
    case BlankCell =>
    case FormulaCell =>
      target.formula := source.formula;
    case UnsupportedCell(_) =>
      // reported to the log only
  }

  /** copyFormula: a non-blank formula of the source is translated by the
      distance between the two rows and stored in the target. */
  method CopyFormula(source: Cell, target: Cell)
    modifies target`formula
    ensures target.Data() == FormulaCopied(old(source.Data()), old(target.Data()), target.RowIndex() - source.RowIndex())
  {
    if source.cellType != FormulaCell {
      return;
    }
    var formula := source.formula;
    if IsBlank(formula) {
      return;
    }
    var sRowIndex := source.RowIndex();
    var tRowIndex := target.RowIndex();
    var moveCount := tRowIndex - sRowIndex;
    formula := MoveFormulaRows(formula, moveCount);
    target.formula := formula;
  }

  /** copyCell: nothing for a null target; otherwise the target takes the
      source's comment (when it has one), style, type, value and translated
      formula. */
  method CopyCell(source: Cell, target: Cell?)
    modifies target
    ensures target == null ==> source.Data() == old(source.Data())
    ensures target != null ==>
              target.Data() == CellCopied(old(source.Data()), old(target.Data()), target.RowIndex() - source.RowIndex())
  {
    if target == null {
      return;
    }
    ghost var s := source.Data();
    if source.comment.Some? {
      target.comment := source.comment;
    }
    target.style := source.style;
    target.cellType := source.cellType;
    ghost var header := target.Data();
    assert source.Data() == s || source == target;
    CopyValue(source, target);
    assert target.Data() == ValueCopied(s, header);
    CopyFormula(source, target);
  }

  /** The data of the cell at column j of a row, if there is one. */
  ghost function CellAt(r: Row, j: int): Option<CellData>
    reads r`cells, r.cells.Values
  {
    if j in r.cells then Some(r.cells[j].Data()) else None
  }

  /** What copyRow leaves in the new cell at a column whose source cell holds
      `source` (None when there is no source cell there). */
  function CopiedColumn(source: Option<CellData>, moveCount: int): CellData {
    match source
    case None => FreshCell
    case Some(s) => CellCopied(s, FreshCell, moveCount)
  }

  /** A new cell that receives a copy holds the source's type, style and
      comment, the source's value when its type carries one, and the
      source's formula when it is a formula cell: translated when the formula
      is not blank, as it was otherwise. */
  lemma CopiedColumnFields(s: CellData, moveCount: int)
    ensures CopiedColumn(Some(s), moveCount).cellType == s.cellType
    ensures CopiedColumn(Some(s), moveCount).style == s.style
    ensures CopiedColumn(Some(s), moveCount).comment == s.comment
    ensures CopiedColumn(Some(s), moveCount).value == if CarriesValue(s.cellType) then s.value else NoValue
    ensures CopiedColumn(Some(s), moveCount).formula ==
              if s.cellType != FormulaCell then ""
              else if IsBlank(s.formula) then s.formula
              else Moved(s.formula, moveCount, 0)
  {
  }

  /** Cell data as a copy can reproduce it: a value only for a type that
      carries one, and a formula only in a formula cell. */
  predicate Reproducible(s: CellData) {
    (CarriesValue(s.cellType) || s.value == NoValue) && (s.cellType == FormulaCell || s.formula == "")
  }

  /** A copy within the same row (distance 0) into a new cell reproduces the
      source exactly when the source is reproducible. */
  lemma CopySameRow(s: CellData)
    ensures CopiedColumn(Some(s), 0) == s <==> Reproducible(s)
  {
  }

  /** Copying the same source twice leaves what copying once leaves. */
  lemma CopyTwice(s: CellData, t: CellData, moveCount: int)
    ensures CellCopied(s, CellCopied(s, t, moveCount), moveCount) == CellCopied(s, t, moveCount)
  {
  }

  /** copyRow: nothing for a null target; otherwise as CopyIntoRow. */
  method CopyRow(source: Row, target: Row?)
    requires source.Valid()
    requires target != null ==> target.Valid()
    modifies (if target == null then {} else {target})`height,
             (if target == null then {} else {target})`cells,
             (if target == null then {} else {target})`lastCellNum
    ensures target == null ==> source.height == old(source.height) && source.cells == old(source.cells)
    ensures target != null ==> target.Valid() && target.height == old(source.height)
    ensures target != null ==>
              forall j :: 0 <= j < old(source.lastCellNum) ==>
                CellAt(target, j) == Some(CopiedColumn(old(CellAt(source, j)), target.rowNum - source.rowNum))
    ensures target != null ==>
              forall j :: !(0 <= j < old(source.lastCellNum)) ==> CellAt(target, j) == old(CellAt(target, j))
    ensures target != null ==>
              forall j :: 0 <= j < old(source.lastCellNum) ==> j in target.cells && fresh(target.cells[j])
    ensures target != null ==>
              target.lastCellNum ==
                if 0 < old(source.lastCellNum) && old(target.lastCellNum) < old(source.lastCellNum)
                then old(source.lastCellNum) else old(target.lastCellNum)
  {
    if target == null {
      return;
    }
    CopyIntoRow(source, target);
  }

  /** copyRow past its null check: the target takes the source's height and,
      at every column below the source's last cell number, a new cell holding
      a copy of the source cell there; its other columns stay as they were,
      and its last cell number grows to the source's. */
  method CopyIntoRow(source: Row, target: Row)
    requires source.Valid() && target.Valid()
    modifies target`height, target`cells, target`lastCellNum
    ensures target.Valid() && target.height == old(source.height)
    ensures forall j :: 0 <= j < old(source.lastCellNum) ==>
              CellAt(target, j) == Some(CopiedColumn(old(CellAt(source, j)), target.rowNum - source.rowNum))
    ensures forall j :: !(0 <= j < old(source.lastCellNum)) ==> CellAt(target, j) == old(CellAt(target, j))
    ensures target.lastCellNum ==
              if 0 < old(source.lastCellNum) && old(target.lastCellNum) < old(source.lastCellNum)
              then old(source.lastCellNum) else old(target.lastCellNum)
    ensures forall j :: 0 <= j < old(source.lastCellNum) ==> j in target.cells && fresh(target.cells[j])
  {
    target.height := source.height;
    var cellCount := source.lastCellNum;
    var i := 0;
    while i < cellCount
      invariant 0 <= i && (i <= cellCount || i == 0)
      invariant target.Valid() && source.Valid() && target.height == old(source.height)
      invariant target.lastCellNum ==
                  if 0 < i && old(target.lastCellNum) < i then i else old(target.lastCellNum)
      invariant forall j :: i <= j ==> CellAt(source, j) == old(CellAt(source, j))
      invariant forall j :: 0 <= j < i ==>
                  CellAt(target, j) == Some(CopiedColumn(old(CellAt(source, j)), target.rowNum - source.rowNum))
      invariant forall j :: !(0 <= j < i) ==> CellAt(target, j) == old(CellAt(target, j))
      invariant forall j :: 0 <= j < i ==> j in target.cells && fresh(target.cells[j])
    {
      label step:
      CopyColumn(source, target, i);
      forall j | 0 <= j < i + 1
        ensures CellAt(target, j) == Some(CopiedColumn(old(CellAt(source, j)), target.rowNum - source.rowNum))
      {
        if j < i {
          assert CellAt(target, j) == old@step(CellAt(target, j));
        } else {
          assert old@step(CellAt(source, j)) == old(CellAt(source, j));
        }
      }
      forall j | 0 <= j < i + 1
        ensures j in target.cells && fresh(target.cells[j])
      {
        if j < i {
          assert target.cells[j] == old@step(target.cells[j]);
        }
      }
      i := i + 1;
    }
  }

  /** One step of copyRow: a new cell at `column` of the target, holding the
      copy of the source cell there when there is one. */
  method CopyColumn(source: Row, target: Row, column: int)
    requires source.Valid() && target.Valid() && 0 <= column
    modifies target`cells, target`lastCellNum
    ensures target.Valid() && column in target.cells && fresh(target.cells[column])
    ensures target.cells == old(target.cells)[column := target.cells[column]]
    ensures target.lastCellNum == if column < old(target.lastCellNum) then old(target.lastCellNum) else column + 1
    ensures CellAt(target, column) == Some(CopiedColumn(old(CellAt(source, column)), target.rowNum - source.rowNum))
    ensures forall j :: j != column ==> CellAt(target, j) == old(CellAt(target, j))
    ensures forall j :: j != column ==> CellAt(source, j) == old(CellAt(source, j))
  {
    var sourceCell := source.GetCell(column);
    // createCell never returns null
    var targetCell := target.CreateCell(column);
    if sourceCell != null {
      CopyCell(sourceCell, targetCell);
    }
  }

  /** updateFormula: a formula cell with a non-blank formula takes the
      formula translated by insertRowCount rows below insertPoint; any other
      cell keeps its formula. */
  method UpdateFormula(cell: Cell, insertRowCount: int, insertPoint: int)
    modifies cell`formula
    ensures cell.formula ==
              if cell.cellType == FormulaCell && !IsBlank(old(cell.formula))
              then Moved(old(cell.formula), insertRowCount, insertPoint)
              else old(cell.formula)
  {
    if cell.cellType != FormulaCell {
      return;
    }
    var formula := cell.formula;
    if IsBlank(formula) {
      return;
    }
    formula := MoveFormulaByInsert(formula, insertRowCount, insertPoint);
    cell.formula := formula;
  }

  /** insertRow(sheet, row, rowIndex): the rows from rowIndex to the last
      move down by one, and a new row at rowIndex receives a copy of the
      template row, each formula translated by the distance from the
      template. */
  method InsertRow(sheet: Sheet, row: Row, rowIndex: int)
    requires sheet.Valid() && row.Valid() && 0 <= rowIndex
    modifies sheet, sheet.rows.Values`rowNum
    ensures sheet.Valid()
    ensures rowIndex in sheet.rows && fresh(sheet.rows[rowIndex])
    ensures ShiftedFrom(sheet.rows - {rowIndex}, old(sheet.rows), rowIndex, old(sheet.lastRowNum), 1)
    ensures forall i :: i in old(sheet.rows) ==>
              old(sheet.rows)[i].rowNum == if rowIndex <= i <= old(sheet.lastRowNum) then i + 1 else i
    ensures sheet.rows[rowIndex].height == old(row.height)
    ensures forall j :: 0 <= j < old(row.lastCellNum) ==>
              CellAt(sheet.rows[rowIndex], j) == Some(CopiedColumn(old(CellAt(row, j)), sheet.rows[rowIndex].rowNum - row.rowNum))
    ensures forall j :: j in sheet.rows[rowIndex].cells ==> 0 <= j < old(row.lastCellNum)
    ensures sheet.lastRowNum >= old(sheet.lastRowNum) && sheet.lastRowNum >= rowIndex
  {
    var insertRow := OpenRow(sheet, rowIndex, row);
    // copyRow's null check passes: the row was just created
    CopyIntoRow(row, insertRow);
  }

  /** The first half of insertRow: after the shift, the place at rowIndex is
      free, so getRow finds nothing there and createRow makes a new empty
      row. */
  method OpenRow(sheet: Sheet, rowIndex: int, ghost template: Row) returns (insertRow: Row)
    requires sheet.Valid() && template.Valid() && 0 <= rowIndex
    modifies sheet, sheet.rows.Values`rowNum
    ensures sheet.Valid() && fresh(insertRow) && insertRow.Valid()
    ensures insertRow.rowNum == rowIndex && insertRow.cells == map[] && insertRow.lastCellNum == -1
    ensures rowIndex in sheet.rows && sheet.rows[rowIndex] == insertRow
    ensures ShiftedFrom(sheet.rows - {rowIndex}, old(sheet.rows), rowIndex, old(sheet.lastRowNum), 1)
    ensures forall i :: i in old(sheet.rows) ==>
              old(sheet.rows)[i].rowNum == if rowIndex <= i <= old(sheet.lastRowNum) then i + 1 else i
    ensures template.Valid() && template.height == old(template.height)
    ensures template.lastCellNum == old(template.lastCellNum)
    ensures forall j :: CellAt(template, j) == old(CellAt(template, j))
    ensures sheet.lastRowNum >= old(sheet.lastRowNum) && sheet.lastRowNum >= rowIndex
  {
    sheet.ShiftRows(rowIndex, sheet.lastRowNum, 1);
    var found := sheet.GetRow(rowIndex);
    // the shift leaves the place at rowIndex empty: getRow finds nothing
    assert found == null;
    insertRow := sheet.CreateRow(rowIndex);
  }

  /** insertRow(sheet, row, rowIndex, rowCount) has an empty body. */
  method InsertRows(sheet: Sheet, row: Row, rowIndex: int, rowCount: int)
    ensures unchanged(sheet) && unchanged(row)
  {
  }

  /** The formula moveRow leaves in a cell of type `t` holding `f`: a
      formula cell's formula is translated, blank or not. */
  function Updated(t: CellType, f: string, moveCount: int, insertRowNum: int): string {
    if t == FormulaCell then Moved(f, moveCount, insertRowNum) else f
  }

  /** The loop of moveRow over the cells of one row: each formula cell of the
      row takes its formula translated by moveCount rows below insertRowNum,
      blank or not; every other cell keeps its formula. */
  method UpdateRowFormulas(row: Row, moveCount: int, insertRowNum: int)
    requires row.Valid()
    modifies row.cells.Values`formula
    ensures forall c: Cell :: old(allocated(c)) ==>
              c.formula == if row.Holds(c) then Updated(c.cellType, old(c.formula), moveCount, insertRowNum) else old(c.formula)
  {
    var j := 0;
    while j < row.lastCellNum
      invariant 0 <= j
      invariant forall c: Cell :: old(allocated(c)) ==>
                  c.formula ==
                    if row.Holds(c) && c.column < j then Updated(c.cellType, old(c.formula), moveCount, insertRowNum)
                    else old(c.formula)
    {
      var cell := row.GetCell(j);
      if cell != null && cell.cellType == FormulaCell {
        var formula := cell.formula;
        formula := MoveFormula(formula, moveCount, insertRowNum);
        cell.formula := formula;
      }
      j := j + 1;
    }
  }

  /** The insert row number moveRow passes to moveFormula for an insert
      point: negative points count as 0, and the point is incremented once
      here and once more by calFormulaNum. */
  function FormulaInsertRow(insertPoint: int): int {
    (if insertPoint > 0 then insertPoint else 0) + 1
  }

  /** The insert point is counted twice: a row number n in a formula that
      moveRow rewrites moves exactly when n >= max(insertPoint, 0) + 2. */
  lemma MoveRowThreshold(n: int, moveCount: int, insertPoint: int)
    ensures ShiftedRow(n, moveCount, FormulaInsertRow(insertPoint)) ==
              if n >= (if insertPoint > 0 then insertPoint else 0) + 2 then n + moveCount else n
  {
  }

  /** moveRow(sheet, startRowIndex, moveCount, insertPoint): nothing unless
      moveCount > 0. Otherwise the rows from startRowIndex to the last move
      down by moveCount, and every formula cell of the moved rows except the
      last one takes its formula translated by moveCount rows below
      max(insertPoint, 0) + 1; every other cell keeps its formula. */
  method MoveRowAt(sheet: Sheet, startRowIndex: int, moveCount: int, insertPoint: int)
    requires sheet.Valid() && (moveCount > 0 ==> 0 <= startRowIndex)
    requires moveCount > 0 ==> forall i :: startRowIndex <= i < sheet.lastRowNum ==> i in sheet.rows
    modifies sheet, sheet.rows.Values`rowNum, sheet.Cells()`formula
    ensures moveCount <= 0 ==> unchanged(sheet) && unchanged(sheet.rows.Values) && unchanged(sheet.Cells())
    ensures moveCount > 0 ==> sheet.Valid()
    ensures moveCount > 0 ==> ShiftedFrom(sheet.rows, old(sheet.rows), startRowIndex, old(sheet.lastRowNum), moveCount)
    ensures moveCount > 0 ==> sheet.lastRowNum >= old(sheet.lastRowNum)
    ensures moveCount > 0 ==>
              forall i :: i in old(sheet.rows) ==>
                old(sheet.rows)[i].rowNum == if startRowIndex <= i <= old(sheet.lastRowNum) then i + moveCount else i
    ensures moveCount > 0 ==>
              forall c: Cell :: old(allocated(c)) && c in old(sheet.CellsIn(startRowIndex, sheet.lastRowNum)) ==>
                c.formula == Updated(c.cellType, old(c.formula), moveCount, FormulaInsertRow(insertPoint))
    ensures moveCount > 0 ==>
              forall c: Cell :: old(allocated(c)) && c !in old(sheet.CellsIn(startRowIndex, sheet.lastRowNum)) ==>
                c.formula == old(c.formula)
  {
    if moveCount <= 0 {
      return;
    }
    ghost var moved := sheet.CellsIn(startRowIndex, sheet.lastRowNum);
    MoveRowsDown(sheet, startRowIndex, moveCount, FormulaInsertRow(insertPoint), moved);
  }

  /** moveRow for moveCount > 0: the shift, then the rescan of the moved
      rows but the last, translating by moveCount rows below insertRowNum. */
  method MoveRowsDown(sheet: Sheet, startRowIndex: int, moveCount: int, insertRowNum: int, ghost moved: set<Cell>)
    requires sheet.Valid() && 0 <= startRowIndex && 0 < moveCount
    requires forall i :: startRowIndex <= i < sheet.lastRowNum ==> i in sheet.rows
    requires moved == sheet.CellsIn(startRowIndex, sheet.lastRowNum)
    modifies sheet, sheet.rows.Values`rowNum, sheet.Cells()`formula
    ensures sheet.Valid()
    ensures ShiftedFrom(sheet.rows, old(sheet.rows), startRowIndex, old(sheet.lastRowNum), moveCount)
    ensures sheet.lastRowNum >= old(sheet.lastRowNum)
    ensures forall i :: i in old(sheet.rows) ==>
              old(sheet.rows)[i].rowNum == if startRowIndex <= i <= old(sheet.lastRowNum) then i + moveCount else i
    ensures forall c: Cell :: old(allocated(c)) && c in moved ==>
              c.formula == Updated(c.cellType, old(c.formula), moveCount, insertRowNum)
    ensures forall c: Cell :: old(allocated(c)) && c !in moved ==> c.formula == old(c.formula)
  {
    var lastRowNum := sheet.lastRowNum;
    ShiftMovedRows(sheet, startRowIndex, moveCount);
    UpdateMovedRows(sheet, startRowIndex + moveCount, lastRowNum + moveCount, moveCount, insertRowNum, moved);
  }

  /** The shift of moveRow: the rows from startRowIndex to the last move
      down by moveCount. The rows the rescan visits then hold the cells of
      the moved rows other than the last. */
  method ShiftMovedRows(sheet: Sheet, startRowIndex: int, moveCount: int)
    requires sheet.Valid() && 0 <= startRowIndex && 0 < moveCount
    modifies sheet, sheet.rows.Values`rowNum
    ensures sheet.Valid()
    ensures ShiftedFrom(sheet.rows, old(sheet.rows), startRowIndex, old(sheet.lastRowNum), moveCount)
    ensures sheet.lastRowNum >= old(sheet.lastRowNum)
    ensures forall i :: i in old(sheet.rows) ==>
              old(sheet.rows)[i].rowNum == if startRowIndex <= i <= old(sheet.lastRowNum) then i + moveCount else i
    ensures sheet.CellsIn(startRowIndex + moveCount, old(sheet.lastRowNum) + moveCount)
         == old(sheet.CellsIn(startRowIndex, sheet.lastRowNum))
    ensures forall c: Cell :: old(allocated(c)) ==> c.formula == old(c.formula) && c.cellType == old(c.cellType)
  {
    var lastRowNum := sheet.lastRowNum;
    ghost var before := sheet.rows;
    sheet.CellsInHolds(startRowIndex, lastRowNum);
    ghost var cells := sheet.CellsIn(startRowIndex, lastRowNum);
    sheet.ShiftRows(startRowIndex, lastRowNum, moveCount);
    sheet.CellsInHolds(startRowIndex + moveCount, lastRowNum + moveCount);
    forall c: Cell
      ensures c in sheet.CellsIn(startRowIndex + moveCount, lastRowNum + moveCount) <==> c in cells
    {
      if c in cells {
        var i := old(c.row.rowNum);
        assert before[i] == c.row;
        assert Origin(i + moveCount, startRowIndex, lastRowNum, moveCount) == i;
      } else if c in sheet.CellsIn(startRowIndex + moveCount, lastRowNum + moveCount) {
        assert false;
      }
    }
  }

  /** The loop of moveRow after the shift: every formula cell of the rows
      from first to last - 1 takes its formula translated by moveCount rows
      below insertRowNum; every other cell keeps its formula. */
  method UpdateMovedRows(sheet: Sheet, first: int, last: int, moveCount: int, insertRowNum: int, ghost moved: set<Cell>)
    requires sheet.Valid()
    requires forall i :: first <= i < last ==> i in sheet.rows
    requires moved == sheet.CellsIn(first, last)
    modifies sheet.Cells()`formula
    ensures forall c: Cell :: old(allocated(c)) && c in moved ==>
              c.formula == Updated(c.cellType, old(c.formula), moveCount, insertRowNum)
    ensures forall c: Cell :: old(allocated(c)) && c !in moved ==> c.formula == old(c.formula)
  {
    sheet.CellsInHolds(first, last);
    var i := first;
    while i < last
      invariant i == first || first <= i <= last
      invariant forall c: Cell :: old(allocated(c)) ==>
                  c.formula ==
                    if sheet.Holds(c) && first <= c.row.rowNum < i
                    then Updated(c.cellType, old(c.formula), moveCount, insertRowNum)
                    else old(c.formula)
    {
      label before:
      UpdateRowAt(sheet, i, moveCount, insertRowNum);
      forall c: Cell | old(allocated(c))
        ensures c.formula ==
                  if sheet.Holds(c) && first <= c.row.rowNum < i + 1
                  then Updated(c.cellType, old(c.formula), moveCount, insertRowNum)
                  else old(c.formula)
      {
        if sheet.Holds(c) && c.row.rowNum == i {
          assert old@before(c.formula) == old(c.formula);
        } else {
          assert c.formula == old@before(c.formula);
        }
      }
      i := i + 1;
    }
  }

  /** One round of the loop of moveRow: the formula cells of row i take
      their translated formula. */
  method UpdateRowAt(sheet: Sheet, i: int, moveCount: int, insertRowNum: int)
    requires sheet.Valid() && i in sheet.rows
    modifies sheet.Cells()`formula
    ensures forall c: Cell :: old(allocated(c)) ==>
              c.formula ==
                if sheet.Holds(c) && c.row.rowNum == i
                then Updated(c.cellType, old(c.formula), moveCount, insertRowNum)
                else old(c.formula)
  {
    var row := sheet.GetRow(i);
    assert forall j :: j in row.cells ==> row.cells[j] in sheet.Cells();
    UpdateRowFormulas(row, moveCount, insertRowNum);
    forall c: Cell | old(allocated(c))
      ensures c.formula ==
                if sheet.Holds(c) && c.row.rowNum == i
                then Updated(c.cellType, old(c.formula), moveCount, insertRowNum)
                else old(c.formula)
    {
      if c.row == row {
        assert row.Holds(c) == sheet.Holds(c);
      }
    }
  }

  /** moveRow(sheet, startRowIndex, moveCount): moveRow with the insert
      point startRowIndex - moveCount - 1. */
  method MoveRow(sheet: Sheet, startRowIndex: int, moveCount: int)
    requires sheet.Valid() && (moveCount > 0 ==> 0 <= startRowIndex)
    requires moveCount > 0 ==> forall i :: startRowIndex <= i < sheet.lastRowNum ==> i in sheet.rows
    modifies sheet, sheet.rows.Values`rowNum, sheet.Cells()`formula
    ensures moveCount <= 0 ==> unchanged(sheet) && unchanged(sheet.rows.Values) && unchanged(sheet.Cells())
    ensures moveCount > 0 ==> sheet.Valid()
    ensures moveCount > 0 ==> ShiftedFrom(sheet.rows, old(sheet.rows), startRowIndex, old(sheet.lastRowNum), moveCount)
    ensures moveCount > 0 ==> sheet.lastRowNum >= old(sheet.lastRowNum)
    ensures moveCount > 0 ==>
              forall i :: i in old(sheet.rows) ==>
                old(sheet.rows)[i].rowNum == if startRowIndex <= i <= old(sheet.lastRowNum) then i + moveCount else i
    ensures moveCount > 0 ==>
              forall c: Cell :: old(allocated(c)) && c in old(sheet.CellsIn(startRowIndex, sheet.lastRowNum)) ==>
                c.formula == Updated(c.cellType, old(c.formula), moveCount, FormulaInsertRow(startRowIndex - moveCount - 1))
    ensures moveCount > 0 ==>
              forall c: Cell :: old(allocated(c)) && c !in old(sheet.CellsIn(startRowIndex, sheet.lastRowNum)) ==>
                c.formula == old(c.formula)
  {
    MoveRowAt(sheet, startRowIndex, moveCount, startRowIndex - moveCount - 1);
  }
}
