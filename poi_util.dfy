/** PoiUtil's row-shift helper and the shiftRows options it passes. */
module PoiUtil {
  import opened Worksheet

  /** shiftRows' copyRowHeight option: a row's height travels with the row. */
  const COPY_ROW_HEIGHT: bool := true

  /** shiftRows' resetOriginalRowHeight option: the height of the row left behind is not reset. */
  const RESET_ORG_ROW_HEIGHT: bool := false

  /**
    poiShiftRows: a zero shift leaves the sheet alone; any other shift moves the rows from
    `baseRow` through the sheet's last row number by `shiftSize`.
   */
  method PoiShiftRows(sheet: Sheet, baseRow: nat, shiftSize: int)
    requires baseRow + shiftSize >= 0
    modifies sheet
    ensures shiftSize == 0 ==> sheet.rows == old(sheet.rows) && sheet.merged == old(sheet.merged)
    ensures sheet.rows == ShiftedToEnd(old(sheet.rows), baseRow, shiftSize)
    ensures ShiftsFrom(old(sheet.rows), sheet.rows, baseRow, shiftSize)
    ensures sheet.merged == ShiftedRegions(old(sheet.merged), baseRow, LastRowNum(old(sheet.rows)), shiftSize)
  {
    ShiftedToEndShifts(sheet.rows, baseRow, shiftSize);
    if 0 == shiftSize {
      ShiftedByZero(sheet.rows, baseRow, LastRowNum(sheet.rows));
      return;
    }
    sheet.ShiftRows(baseRow, LastRowNum(sheet.rows), shiftSize);
  }

  /**
    A shifted row keeps its height (and its hidden flag and cells) at its new index, since the
    row moves whole; a downward shift leaves the indices [baseRow, baseRow + shiftSize) without
    rows, so no row is left behind there whose height could be reset.
   */
  lemma ShiftCarriesRowHeight(rows: map<nat, Row>, baseRow: nat, shiftSize: int, k: nat)
    requires baseRow + shiftSize >= 0
    requires k in rows && baseRow <= k
    ensures k + shiftSize in ShiftedToEnd(rows, baseRow, shiftSize)
    ensures ShiftedToEnd(rows, baseRow, shiftSize)[k + shiftSize].height == rows[k].height
    ensures forall d: nat :: baseRow <= d < baseRow + shiftSize ==> d !in ShiftedToEnd(rows, baseRow, shiftSize)
  {
    ShiftedToEndShifts(rows, baseRow, shiftSize);
    assert Landing(k, shiftSize) == k + shiftSize;
    forall d: nat | baseRow <= d < baseRow + shiftSize
      ensures d !in ShiftedToEnd(rows, baseRow, shiftSize)
    {
      var o := Origin(d, shiftSize);
    }
  }

  /** A downward shift never disturbs the rows above the base. */
  lemma ShiftDownKeepsRowsAbove(rows: map<nat, Row>, baseRow: nat, shiftSize: nat)
    ensures forall k: nat :: k < baseRow ==> SameAt(rows, ShiftedToEnd(rows, baseRow, shiftSize), k)
  {
    var after := ShiftedToEnd(rows, baseRow, shiftSize);
    ShiftedToEndShifts(rows, baseRow, shiftSize);
    forall k: nat | k < baseRow
      ensures SameAt(rows, after, k)
    {
      var o := Origin(k, shiftSize);
    }
  }
}
