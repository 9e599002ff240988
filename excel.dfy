/**
  The workbook wrapper: a current sheet, cell lookup that creates what is missing, defined
  names resolved to cells or row ranges, and the row operations of a range selection.
 */
module Excel {
  import opened Worksheet
  import opened RowOps

  /** Why a wrapper call fails. */
  datatype Error =
    | NameNotDefined      // the workbook has no such defined name
    | NotACellReference   // a single cell was asked for, but the name refers to an area
    | SheetNotFound       // the name's sheet is not in the workbook
    | SheetIndexOutOfRange
    | NotImplemented      // insertRows is a stub that always fails

  datatype Result<T> = Ok(value: T) | Err(error: Error)

  datatype Outcome = Pass | Fail(error: Error)

  /** A parsed A1-style reference: its sheet, its coordinates and which axes are absolute ($). */
  datatype CellRef = CellRef(sheetName: string, row: nat, col: nat, rowAbsolute: bool, colAbsolute: bool)

  /** What a defined name refers to: one cell, or an area given by its first and last corner. */
  datatype Refers = SingleCell(cell: CellRef) | Area(first: CellRef, last: CellRef)

  /** A defined name: the sheet it belongs to and what it refers to. */
  datatype NameDef = NameDef(sheetName: string, refersTo: Refers)

  /** The first and last corner of what a name refers to; a single cell is both corners. */
  function Corners(refers: Refers): (CellRef, CellRef)
  {
    match refers
    case SingleCell(c) => (c, c)
    case Area(first, last) => (first, last)
  }

  /**
    The coordinates a corner of a range resolves to: an absolute axis keeps its value, a
    relative axis collapses to 0, so a corner never resolves past what is written.
   */
  function Collapse(ref: CellRef): (at: (nat, nat))
    ensures ref.rowAbsolute ==> at.0 == ref.row
    ensures !ref.rowAbsolute ==> at.0 == 0
    ensures ref.colAbsolute ==> at.1 == ref.col
    ensures !ref.colAbsolute ==> at.1 == 0
    ensures at.0 <= ref.row && at.1 <= ref.col
  {
    (if ref.rowAbsolute then ref.row else 0, if ref.colAbsolute then ref.col else 0)
  }

  /** Two references that differ only in their relative coordinates resolve to the same cell. */
  lemma CollapseForgetsRelative(a: CellRef, b: CellRef)
    requires a.rowAbsolute == b.rowAbsolute && a.colAbsolute == b.colAbsolute
    requires a.rowAbsolute ==> a.row == b.row
    requires a.colAbsolute ==> a.col == b.col
    ensures Collapse(a) == Collapse(b)
  {
  }

  /** getSheet(name): the workbook's sheet with that name, or null when there is none. */
  function FindSheet(sheets: seq<Sheet>, name: string): (found: Sheet?)
    ensures found == null <==> forall i :: 0 <= i < |sheets| ==> sheets[i].name != name
    ensures found != null ==> found in sheets && found.name == name
  {
    if sheets == [] then null
    else if sheets[0].name == name then sheets[0]
    else FindSheet(sheets[1..], name)
  }

  /**
    The rows after get-or-create of the cell (row, col): afterwards the row and the cell
    exist, a cell that was there keeps its value, a new cell is blank, and nothing else changes.
   */
  function WithCell(rows: map<nat, Row>, row: nat, col: nat): (after: map<nat, Row>)
    ensures row in after && col in after[row].cells
    ensures row in rows && col in rows[row].cells ==> after == rows
    ensures !(row in rows && col in rows[row].cells) ==> after[row].cells[col] == Blank
    ensures row in rows ==> after[row].zeroHeight == rows[row].zeroHeight && after[row].height == rows[row].height
    ensures row in rows ==> forall c :: c != col ==> SameAt(rows[row].cells, after[row].cells, c)
    ensures row !in rows ==> after[row] == Row(map[col := Blank], false, SheetDefault)
    ensures forall k :: k != row ==> SameAt(rows, after, k)
  {
    if row in rows && col in rows[row].cells then rows
    else
      var r := if row in rows then rows[row] else EmptyRow;
      rows[row := r.(cells := r.cells[col := Blank])]
  }

  /** Looking the same cell up twice creates nothing the first lookup did not. */
  lemma WithCellIdempotent(rows: map<nat, Row>, row: nat, col: nat)
    ensures WithCell(WithCell(rows, row, col), row, col) == WithCell(rows, row, col)
  {
  }

  /** The wrapper over one workbook: its sheets, its defined names and the current sheet. */
  class ExcelWrapper {
    const sheets: seq<Sheet>
    const names: map<string, NameDef>
    var current: Sheet?

    /** Wraps an existing workbook with the first sheet selected. */
    constructor (sheets: seq<Sheet>, names: map<string, NameDef>)
      requires |sheets| > 0
      ensures this.sheets == sheets && this.names == names && current == sheets[0]
    {
      this.sheets := sheets;
      this.names := names;
      current := sheets[0];
    }

    /** Wraps a new workbook holding one empty sheet, which is selected. */
    constructor Blank()
      ensures |sheets| == 1 && fresh(sheets[0]) && current == sheets[0]
      ensures sheets[0].name == "Sheet0" && sheets[0].rows == map[] && sheets[0].merged == []
      ensures names == map[]
    {
      var sheet := new Sheet("Sheet0", map[], []);
      sheets := [sheet];
      names := map[];
      current := sheet;
    }

    /** sheet(int): selects the sheet at `index`; an index outside the workbook fails and selects nothing. */
    method SheetAt(index: int) returns (outcome: Outcome)
      modifies this`current
      ensures 0 <= index < |sheets| ==> outcome == Pass && current == sheets[index]
      ensures !(0 <= index < |sheets|) ==> outcome == Fail(SheetIndexOutOfRange) && current == old(current)
    {
      if 0 <= index < |sheets| {
        current := sheets[index];
        outcome := Pass;
      } else {
        outcome := Fail(SheetIndexOutOfRange);
      }
    }

    /** sheet(String): selects the sheet with that name, or no sheet at all when there is none. */
    method SheetNamed(name: string)
      modifies this`current
      ensures current == FindSheet(sheets, name)
      ensures current != null ==> current in sheets && current.name == name
    {
      current := FindSheet(sheets, name);
    }

    /** exists(name): whether the workbook defines the name. */
    function Exists(name: string): (defined: bool)
      ensures defined <==> name in names
    {
      name in names
    }

    /** xcell(row, col): get-or-create of a cell on the current sheet. */
    method XCell(row: nat, col: nat)
      requires current != null
      modifies current
      ensures current.rows == WithCell(old(current.rows), row, col)
      ensures current.merged == old(current.merged)
    {
      if row !in current.rows {
        current.CreateRow(row);
      }
      if col !in current.rows[row].cells {
        current.CreateCell(row, col);
      }
    }

    /** xcell(CellReference): get-or-create of the cell a range corner collapses to. */
    method XCellAt(ref: CellRef) returns (row: nat, col: nat)
      requires current != null
      modifies current
      ensures (row, col) == Collapse(ref)
      ensures current.rows == WithCell(old(current.rows), row, col)
      ensures current.merged == old(current.merged)
    {
      row := if ref.rowAbsolute then ref.row else 0;
      col := if ref.colAbsolute then ref.col else 0;
      XCell(row, col);
    }

    /** cell(row, col): the cell at (row, col) of the current sheet, created if missing. */
    method Cell(row: nat, col: nat) returns (cell: CellContext)
      requires current != null
      modifies current
      ensures fresh(cell) && cell.sheet == current && cell.row == row && cell.col == col
      ensures current.rows == WithCell(old(current.rows), row, col)
      ensures current.merged == old(current.merged)
    {
      XCell(row, col);
      cell := new CellContext(current, row, col);
    }

    /**
      cell(name): selects the sheet named in the name's reference and gets or creates the cell
      there at the reference's coordinates, taken as written whatever their $ flags.
     */
    method CellNamed(name: string) returns (result: Result<CellContext>)
      modifies this, sheets
      ensures !Exists(name) ==> result == Err(NameNotDefined) && current == old(current)
      ensures Exists(name) && names[name].refersTo.Area? ==> result == Err(NotACellReference) && current == old(current)
      ensures Exists(name) && names[name].refersTo.SingleCell? ==>
                var ref := names[name].refersTo.cell;
                var target := FindSheet(sheets, ref.sheetName);
                && current == target
                && (target == null ==> result == Err(SheetNotFound))
                && (target != null ==>
                      && result.Ok? && fresh(result.value)
                      && result.value.sheet == target && result.value.row == ref.row && result.value.col == ref.col
                      && target.rows == WithCell(old(target.rows), ref.row, ref.col)
                      && target.merged == old(target.merged))
      ensures forall s :: s in sheets && (result.Err? || s != current) ==> s.rows == old(s.rows) && s.merged == old(s.merged)
    {
      if name !in names {
        return Err(NameNotDefined);
      }
      var def := names[name];
      if def.refersTo.Area? {
        return Err(NotACellReference);
      }
      var ref := def.refersTo.cell;
      SheetNamed(ref.sheetName);
      if current == null {
        return Err(SheetNotFound);
      }
      var cell := Cell(ref.row, ref.col);
      return Ok(cell);
    }

    /**
      range(name): selects the name's sheet, gets or creates the cells its two corners collapse
      to, and selects the rows of those corners.
     */
    method Range(name: string) returns (result: Result<RangeContext>)
      modifies this, sheets
      ensures !Exists(name) ==> result == Err(NameNotDefined) && current == old(current)
      ensures Exists(name) ==>
                var def := names[name];
                var target := FindSheet(sheets, def.sheetName);
                var first := Collapse(Corners(def.refersTo).0);
                var last := Collapse(Corners(def.refersTo).1);
                && current == target
                && (target == null ==> result == Err(SheetNotFound))
                && (target != null ==>
                      && result.Ok? && fresh(result.value) && result.value.wrapper == this
                      && result.value.row1 == first.0 && result.value.row2 == last.0
                      && target.rows == WithCell(WithCell(old(target.rows), first.0, first.1), last.0, last.1)
                      && target.merged == old(target.merged))
      ensures forall s :: s in sheets && (result.Err? || s != current) ==> s.rows == old(s.rows) && s.merged == old(s.merged)
    {
      if name !in names {
        return Err(NameNotDefined);
      }
      var def := names[name];
      SheetNamed(def.sheetName);
      if current == null {
        return Err(SheetNotFound);
      }
      var (first, last) := Corners(def.refersTo);
      var row1, col1 := XCellAt(first);
      var row2, col2 := XCellAt(last);
      var range := new RangeContext(this, row1, row2);
      return Ok(range);
    }
  }

  /** A cell handed out by the wrapper: a position on one sheet. */
  class CellContext {
    const sheet: Sheet
    const row: nat
    const col: nat

    constructor (sheet: Sheet, row: nat, col: nat)
      ensures this.sheet == sheet && this.row == row && this.col == col
    {
      this.sheet := sheet;
      this.row := row;
      this.col := col;
    }

    /** value(str): writes a string into this cell and changes no other cell, row or region. */
    method Value(text: string)
      requires sheet.HasCell(row, col)
      modifies sheet
      ensures sheet.HasCell(row, col) && sheet.rows[row].cells[col] == Text(text)
      ensures forall c :: c != col ==> SameAt(old(sheet.rows)[row].cells, sheet.rows[row].cells, c)
      ensures sheet.rows[row].zeroHeight == old(sheet.rows)[row].zeroHeight
      ensures sheet.rows[row].height == old(sheet.rows)[row].height
      ensures forall k :: k != row ==> SameAt(old(sheet.rows), sheet.rows, k)
      ensures sheet.merged == old(sheet.merged)
    {
      sheet.SetCellValue(row, col, text);
    }
  }

  /**
    A selection of rows [row1, row2] on the wrapper; each operation works on the wrapper's
    current sheet at the time it is called.
   */
  class RangeContext {
    const wrapper: ExcelWrapper
    const row1: nat
    const row2: nat

    constructor (wrapper: ExcelWrapper, row1: nat, row2: nat)
      ensures this.wrapper == wrapper && this.row1 == row1 && this.row2 == row2
    {
      this.wrapper := wrapper;
      this.row1 := row1;
      this.row2 := row2;
    }

    /**
      clearRows: unmerges the regions contained in the rows, then replaces each selected row by
      an empty one; rows outside the selection are untouched.
     */
    method ClearRows()
      requires wrapper.current != null
      requires RowsPresent(wrapper.current.rows, row1, row2)
      modifies wrapper.current
      ensures wrapper.current.merged == Unmerged(old(wrapper.current.merged), row1, row2)
      ensures ClearedRows(old(wrapper.current.rows), wrapper.current.rows, row1, row2)
    {
      var sheet := wrapper.current;
      var n := Count(row1, row2);
      var unmerges := ContainedIndices(sheet.merged, row1, row2);
      sheet.RemoveMergedRegions(unmerges);
      ghost var rows0 := sheet.rows;
      var i := 0;
      while i < n
        invariant 0 <= i && (i <= n || i == 0)
        invariant sheet.merged == Unmerged(old(sheet.merged), row1, row2)
        invariant forall k: nat :: row1 <= k < row1 + i ==> k in sheet.rows && sheet.rows[k] == EmptyRow
        invariant forall k: nat :: !(row1 <= k < row1 + i) ==> (k in sheet.rows <==> k in rows0)
        invariant forall k: nat :: !(row1 <= k < row1 + i) && k in sheet.rows ==> sheet.rows[k] == rows0[k]
      {
        var row := row1 + i;
        sheet.RemoveRow(row);
        sheet.CreateRow(row);
        i := i + 1;
      }
    }

    /** hideRows: flags each selected row zero-height; cells, heights and regions are untouched. */
    method HideRows()
      requires wrapper.current != null
      requires RowsPresent(wrapper.current.rows, row1, row2)
      modifies wrapper.current
      ensures wrapper.current.rows == HiddenRows(old(wrapper.current.rows), row1, row2)
      ensures wrapper.current.merged == old(wrapper.current.merged)
    {
      var sheet := wrapper.current;
      var n := Count(row1, row2);
      var i := 0;
      while i < n
        invariant 0 <= i && (i <= n || i == 0)
        invariant sheet.merged == old(sheet.merged)
        invariant sheet.rows.Keys == old(sheet.rows).Keys
        invariant forall k :: k in sheet.rows ==>
                    sheet.rows[k] == if row1 <= k < row1 + i then old(sheet.rows)[k].(zeroHeight := true) else old(sheet.rows)[k]
      {
        var row := row1 + i;
        sheet.HideRow(row);
        i := i + 1;
      }
    }

    /** insertRows(): a stub that always fails and changes nothing. */
    method InsertRows() returns (outcome: Outcome)
      ensures outcome == Fail(NotImplemented)
    {
      outcome := InsertRowsWithCopy(false);
    }

    /** insertRows(withCopy): a stub that always fails and changes nothing. */
    method InsertRowsWithCopy(withCopy: bool) returns (outcome: Outcome)
      ensures outcome == Fail(NotImplemented)
    {
      outcome := Fail(NotImplemented);
    }

    /**
      deleteRows: unmerges the regions contained in the rows, removes each selected row, then
      shifts the rows from row2 + 1 through the last row number up by the selection's count.
     */
    method DeleteRows()
      requires wrapper.current != null
      requires RowsPresent(wrapper.current.rows, row1, row2)
      modifies wrapper.current
      ensures wrapper.current.rows == DeletedRows(old(wrapper.current.rows), row1, row2)
      ensures wrapper.current.merged == DeletedRegions(old(wrapper.current.merged), old(wrapper.current.rows), row1, row2)
    {
      var sheet := wrapper.current;
      ghost var rows0, merged0 := sheet.rows, sheet.merged;
      var n := Count(row1, row2);
      var unmerges := ContainedIndices(sheet.merged, row1, row2);
      sheet.RemoveMergedRegions(unmerges);
      RemoveSelectedRows(sheet);
      var last := LastRowNum(sheet.rows);
      sheet.ShiftRows(row2 + 1, last, -n);
      assert last == LastRowNum(RemoveRange(rows0, row1, row2));
      assert -n == row1 - row2 - 1;
      assert sheet.merged == ShiftedRegions(Unmerged(merged0, row1, row2), row2 + 1, last, row1 - row2 - 1);
    }

    /** The removal loop of deleteRows: each selected row is removed, the others stay. */
    method RemoveSelectedRows(sheet: Sheet)
      requires RowsPresent(sheet.rows, row1, row2)
      modifies sheet
      ensures sheet.rows == RemoveRange(old(sheet.rows), row1, row2)
      ensures sheet.merged == old(sheet.merged)
    {
      var n := Count(row1, row2);
      var i := 0;
      while i < n
        invariant 0 <= i && (i <= n || i == 0)
        invariant sheet.merged == old(sheet.merged)
        invariant forall k :: k in sheet.rows <==> k in old(sheet.rows) && !(row1 <= k < row1 + i)
        invariant forall k :: k in sheet.rows ==> sheet.rows[k] == old(sheet.rows)[k]
      {
        var row := row1 + i;
        sheet.RemoveRow(row);
        i := i + 1;
      }
    }
  }
}
