/** The part of the POI spreadsheet model (HSSFSheet, HSSFRow, HSSFCell)
    that ExcelUtil relies on, as an abstract interface. Cell values, styles
    and comments are opaque identifiers. */
module Grid {

  datatype Option<T> = None | Some(value: T)

  /** The cell type tags of POI: CELL_TYPE_NUMERIC (0), CELL_TYPE_STRING (1),
      CELL_TYPE_FORMULA (2), CELL_TYPE_BLANK (3), CELL_TYPE_BOOLEAN (4),
      CELL_TYPE_ERROR (5); any other code is UnsupportedCell. */
  datatype CellType =
    | NumericCell | StringCell | FormulaCell | BlankCell | BooleanCell | ErrorCell
    | UnsupportedCell(code: int)

  /** The value a cell stores for its type (a string, boolean, number, date
      or error code), as an opaque token. */
  datatype CellValue = NoValue | Value(token: int)

  /** The style a freshly created cell has. */
  const DefaultStyle: int := 0

  /** The height a freshly created row has. */
  const DefaultHeight: int := 0xff

  /** Everything a cell holds, as a value. */
  datatype CellData = CellData(
    cellType: CellType,
    value: CellValue,
    formula: string,
    style: int,
    comment: Option<int>)

  /** What createCell leaves in a new cell: blank, no value, no formula, the
      default style and no comment. */
  const FreshCell: CellData := CellData(BlankCell, NoValue, "", DefaultStyle, None)

  /** HSSFCell. The row and column a cell was created at never change. */
  class Cell {
    const row: Row
    const column: int
    var cellType: CellType
    var value: CellValue
    var formula: string
    var style: int
    var comment: Option<int>

    constructor (row: Row, column: int)
      ensures this.row == row && this.column == column
      ensures Data() == FreshCell
    {
      this.row := row;
      this.column := column;
      cellType := BlankCell;
      value := NoValue;
      formula := "";
      style := DefaultStyle;
      comment := None;
    }

    function Data(): CellData
      reads this
    {
      CellData(cellType, value, formula, style, comment)
    }

    /** getRowIndex: the current index of the row the cell belongs to. */
    function RowIndex(): int
      reads row
    {
      row.rowNum
    }
  }

  /** HSSFRow. `lastCellNum` bounds the columns in use (getLastCellNum). */
  class Row {
    var rowNum: int
    var height: int
    var cells: map<int, Cell>
    var lastCellNum: int

    /** Every cell sits at its own column, below lastCellNum, and belongs to
        this row. */
    ghost predicate Valid()
      reads this`cells, this`lastCellNum
    {
      forall j :: j in cells ==> 0 <= j < lastCellNum && cells[j].row == this && cells[j].column == j
    }

    constructor (rowNum: int)
      ensures Valid()
      ensures this.rowNum == rowNum && height == DefaultHeight
      ensures cells == map[] && lastCellNum == -1
    {
      this.rowNum := rowNum;
      height := DefaultHeight;
      cells := map[];
      lastCellNum := -1;
    }

    /** The cell `c` is the one at its own column. */
    predicate Holds(c: Cell)
      reads this`cells
    {
      c.column in cells && cells[c.column] == c
    }

    /** getCell: the cell at `column`, or null. */
    function GetCell(column: int): Cell?
      reads this
    {
      if column in cells then cells[column] else null
    }

    /** createCell: a new blank cell at `column`, replacing any cell there. */
    method CreateCell(column: int) returns (c: Cell)
      requires Valid() && 0 <= column
      modifies this`cells, this`lastCellNum
      ensures Valid() && fresh(c)
      ensures c.row == this && c.column == column && c.Data() == FreshCell
      ensures cells == old(cells)[column := c]
      ensures lastCellNum == if column < old(lastCellNum) then old(lastCellNum) else column + 1
    {
      c := new Cell(this, column);
      cells := cells[column := c];
      if lastCellNum <= column {
        lastCellNum := column + 1;
      }
    }
  }

  /** Where the row that sits at index `i` after shifting [start, end] down
      by n came from. */
  function Origin(i: int, start: int, end: int, n: int): int {
    if start + n <= i <= end + n then i - n else i
  }

  /** `r` is what the row map `rows` becomes when the rows in [start, end]
      shift down by n > 0: each of those rows moves to its index plus n, rows
      at the destinations are overwritten, and the places the moved rows
      leave stay empty. */
  ghost predicate ShiftedFrom(r: map<int, Row>, rows: map<int, Row>, start: int, end: int, n: int) {
    (forall i :: i in r <==> Origin(i, start, end, n) in rows && (start + n <= i <= end + n || !(start <= i <= end))) &&
    (forall i :: i in r ==> Origin(i, start, end, n) in rows && r[i] == rows[Origin(i, start, end, n)])
  }

  /** The row map after shifting the rows in [start, end] down by n > 0. */
  function ShiftedRows(rows: map<int, Row>, start: int, end: int, n: int): (r: map<int, Row>)
    requires 0 < n
    ensures ShiftedFrom(r, rows, start, end, n)
  {
    var moved := set i | i in rows && start <= i <= end :: i + n;
    var kept := set i | i in rows && !(start <= i <= end) && !(start + n <= i <= end + n);
    map i | i in moved + kept :: rows[Origin(i, start, end, n)]
  }

  /** The shift determines the new row map. */
  lemma ShiftedFromUnique(r: map<int, Row>, r': map<int, Row>, rows: map<int, Row>, start: int, end: int, n: int)
    requires ShiftedFrom(r, rows, start, end, n) && ShiftedFrom(r', rows, start, end, n)
    ensures r == r'
  {
    forall i ensures i in r <==> i in r' {
      assert i in r <==> Origin(i, start, end, n) in rows && (start + n <= i <= end + n || !(start <= i <= end));
    }
    assert r.Keys == r'.Keys;
    forall i | i in r ensures r[i] == r'[i] {
      assert r[i] == rows[Origin(i, start, end, n)];
    }
  }

  /** HSSFSheet. `lastRowNum` bounds the row indices in use (getLastRowNum). */
  class Sheet {
    var rows: map<int, Row>
    var lastRowNum: int

    /** Every row sits at its own index, within [0, lastRowNum]. */
    ghost predicate Valid()
      reads this, rows.Values`rowNum, rows.Values`cells, rows.Values`lastCellNum
    {
      0 <= lastRowNum &&
      forall i :: i in rows ==> 0 <= i <= lastRowNum && rows[i].rowNum == i && rows[i].Valid()
    }

    /** The cells of every row of the sheet. */
    ghost function Cells(): set<Cell>
      reads this, rows.Values`cells
    {
      set i, j | i in rows && j in rows[i].cells :: rows[i].cells[j]
    }

    /** The cell `c` is in the sheet: its row is the one at the row's
        index, and the cell is the one at its column there. */
    predicate Holds(c: Cell)
      reads this, c.row
    {
      c.row.rowNum in rows && rows[c.row.rowNum] == c.row && c.row.Holds(c)
    }

    /** The cells of the rows at indices lo to hi - 1. */
    ghost function CellsIn(lo: int, hi: int): set<Cell>
      reads this, rows.Values`cells
    {
      set i, j | i in rows && lo <= i < hi && j in rows[i].cells :: rows[i].cells[j]
    }

    /** In a valid sheet, the cells of a range of rows are those that are
        in the sheet at a row within the range. */
    lemma CellsInHolds(lo: int, hi: int)
      requires Valid()
      ensures forall c: Cell :: c in CellsIn(lo, hi) <==> Holds(c) && lo <= c.row.rowNum < hi
    {
      forall c: Cell
        ensures c in CellsIn(lo, hi) <==> Holds(c) && lo <= c.row.rowNum < hi
      {
        if Holds(c) && lo <= c.row.rowNum < hi {
          var i := c.row.rowNum;
          assert c == rows[i].cells[c.column];
        }
      }
    }

    constructor ()
      ensures Valid() && rows == map[] && lastRowNum == 0
    {
      rows := map[];
      lastRowNum := 0;
    }

    /** getRow: the row at `index`, or null. */
    function GetRow(index: int): Row?
      reads this
    {
      if index in rows then rows[index] else null
    }

    /** createRow: a new empty row at `index`, replacing any row there. */
    method CreateRow(index: int) returns (r: Row)
      requires Valid() && 0 <= index
      modifies this
      ensures Valid() && fresh(r)
      ensures rows == old(rows)[index := r]
      ensures r.rowNum == index && r.height == DefaultHeight && r.cells == map[] && r.lastCellNum == -1
      ensures lastRowNum == if index <= old(lastRowNum) then old(lastRowNum) else index
    {
      r := new Row(index);
      rows := rows[index := r];
      if lastRowNum < index {
        lastRowNum := index;
      }
    }

    /** shiftRows(start, end, n) for n > 0: the rows in [start, end] move
        down by n, keeping their height and cells; nothing happens when
        start > end. */
    method ShiftRows(start: int, end: int, n: int)
      requires Valid() && 0 <= start && 0 < n
      modifies this, rows.Values`rowNum
      ensures Valid()
      ensures ShiftedFrom(rows, old(rows), start, end, n)
      ensures forall i :: i in old(rows) ==> old(rows)[i].rowNum == if start <= i <= end then i + n else i
      ensures lastRowNum >= old(lastRowNum)
    {
      if start <= end {
        ghost var before := rows;
        Renumber(start, end, n);
        assert rows == before;
        rows := ShiftedRows(rows, start, end, n);
        if lastRowNum < end + n {
          lastRowNum := end + n;
        }
        forall i | i in rows
          ensures 0 <= i <= lastRowNum && rows[i].rowNum == i && rows[i].Valid()
        {
          var o := Origin(i, start, end, n);
          assert rows[i] == before[o];
        }
      } else {
        forall i ensures Origin(i, start, end, n) == i {
        }
      }
    }

    /** The first half of shiftRows: the rows in [start, end] take their new
        index; the map itself changes afterwards. */
    method Renumber(start: int, end: int, n: int)
      requires Valid()
      modifies rows.Values`rowNum
      ensures forall i :: i in rows ==> rows[i].rowNum == if start <= i <= end then i + n else i
    {
      forall r | r in rows.Values && start <= r.rowNum <= end {
        r.rowNum := r.rowNum + n;
      }
      assert forall i :: i in rows ==> rows[i] in rows.Values;
    }
  }
}
