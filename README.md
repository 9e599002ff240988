# Row engine of the POI workbook wrapper, in Dafny

This project models the core of `ExcelWrapper`, a thin fluent wrapper over an Apache POI
`.xlsx` workbook, together with `PoiUtil.poiShiftRows`.

The wrapper keeps a *current sheet*. It hands out cells by position or by defined name,
creating a missing row or cell on the way (get-or-create). It resolves a defined name to a
*range*: a selection of rows `[row1, row2]` fixed by the row indices of two corner cells.
On that selection it can:

- **clear** the rows: unmerge the merged regions lying wholly inside, then replace each row
  by an empty one;
- **hide** the rows: flag each one zero-height;
- **delete** the rows: unmerge, remove each row, then shift the rows below up to close the gap.

Insert is a stub that always fails.

The worksheet is abstract (`Worksheet`): a sparse map from row index to `Row` (the cells by
column, the zero-height flag and the height) and the list of merged regions. The POI calls the
wrapper makes are methods of the `Sheet` class: `getRow`/`createRow`/`removeRow`, `createCell`,
`setZeroHeight`, `setCellValue`, `removeMergedRegions`, `getLastRowNum` and `shiftRows`.

`shiftRows(start, end, n)` is modelled as follows:

- each row in `[start, end]` moves, whole, to its index + `n`;
- a row in the destination span that is not itself moved is overwritten;
- every other row stays;
- a merged region lying wholly inside `[start, end]` moves with its rows, and every other
  region stays where it is.

The handling of merged regions is an assumption about POI, whose code is not part of this
model. Every fact the model proves about a shift follows from this description. The facts
are gathered in the `ShiftsFrom` predicate, which `ShiftedToEndShifts` establishes.

One consequence of that assumption concerns deleteRows. A merged region that straddles the
deleted selection is kept by the wrapper's own unmerge filter. It is then not moved by the
shift either, because it does not lie wholly inside the shifted span
(`MergeBoundaryExample`).

Modules:

- `Worksheet` (`worksheet.dfy`): rows, regions, `LastRowNum`, the shift, and the `Sheet` class.
- `PoiUtil` (`poi_util.dfy`): the `ShiftRowsOptions` constants and `PoiShiftRows`.
- `RowOps` (`row_ops.dfy`): what clear, hide and delete do to a row map and a region list,
  stated as functions and predicates, with the lemmas about them. It also holds the
  unmerge loop `ContainedIndices`.
- `Excel` (`excel.dfy`): the `ExcelWrapper`, `RangeContext` and `CellContext` classes, name
  resolution, and get-or-create.

Behaviour of the code that one might not expect:

- **Missing rows.** One might expect a missing row in a selection to be skipped. The code
  calls `removeRow` and `setZeroHeight` on `getRow`'s result without a null check, so a missing
  row raises an exception. Clear, hide and delete therefore *require* every selected row to
  exist (`RowsPresent`).
- **Inverted selections.** The count `n = row2 - row1 + 1` is a signed integer. When the
  selection is inverted (`row1 > row2`), the loops do nothing and no region is contained. The
  collapse of a relative corner to 0 can produce such a selection, e.g. `$A$5:A7` gives rows
  (4, 0). In that case deleteRows still calls `shiftRows(row2 + 1, last, -n)`, which moves the
  rows after `row2` *down* by `row1 - row2 - 1` (`DeleteInvertedMovesDown`).
- **Which sheet the row operations use.** They act on whatever sheet is current when they
  are called, not necessarily the sheet `range(name)` selected.

## Model

| member | source | states |
|---|---|---|
| `Worksheet.LastRowNum` | poi_feasibility/src/main/java/sugaryo/poi_feasibility/utility/ExcelWrapper.java:146 | getLastRowNum is a row index present and at least every other one, or -1 for a sheet without rows |
| `Worksheet.ShiftedToEndShifts` | poi_feasibility/src/main/java/sugaryo/poi_feasibility/utility/PoiUtil.java:128-130 | shifting from `base` through the last row number by `n` puts every row at or after `base`, whole, at its index + n; keeps the rows before both `base` and the destination; invents no row |
| `Worksheet.ShiftedByZero` | poi_feasibility/src/main/java/sugaryo/poi_feasibility/utility/PoiUtil.java:126 | a shift by zero leaves the rows as they are, whatever the span |
| `Worksheet.ShiftDownThenUpRestores` | poi_feasibility/src/main/java/sugaryo/poi_feasibility/utility/PoiUtil.java:123-131 | shifting the rows from `base` to the last row down by `s`, then those from `up` = `base + s` to the new last row by `n` = -s, gives back exactly the original rows |
| `Worksheet.ShiftBackRestores` | poi_feasibility/src/main/java/sugaryo/poi_feasibility/utility/PoiUtil.java:112-131 | for any row maps shaped like a shift down by `s` from `base` followed by a shift by `n` = -s from `up` = `base + s` (`ShiftsFrom`), the result is exactly the original rows |
| `Worksheet.ShiftedRegions` | poi_feasibility/src/main/java/sugaryo/poi_feasibility/utility/ExcelWrapper.java:146 | after a shift the region list has the same length; a region wholly inside the shifted span has both row bounds moved by `n` and its columns kept; every other region is unchanged |
| `Worksheet.Sheet.CreateRow` | poi_feasibility/src/main/java/sugaryo/poi_feasibility/utility/ExcelWrapper.java:85 | createRow puts an empty, visible, default-height row at the index and changes nothing else |
| `Worksheet.Sheet.RemoveRow` | poi_feasibility/src/main/java/sugaryo/poi_feasibility/utility/ExcelWrapper.java:84 | removeRow needs the row to exist and removes just that row |
| `Worksheet.Sheet.CreateCell` | poi_feasibility/src/main/java/sugaryo/poi_feasibility/utility/ExcelWrapper.java:234 | createCell on an existing row puts a blank cell at the column and changes nothing else |
| `Worksheet.Sheet.HideRow` | poi_feasibility/src/main/java/sugaryo/poi_feasibility/utility/ExcelWrapper.java:101 | setZeroHeight(true) needs the row to exist and sets only its hidden flag |
| `Worksheet.Sheet.SetCellValue` | poi_feasibility/src/main/java/sugaryo/poi_feasibility/utility/ExcelWrapper.java:38 | setCellValue needs the cell to exist and stores the string in that cell only |
| `Worksheet.Sheet.RemoveMergedRegions` | poi_feasibility/src/main/java/sugaryo/poi_feasibility/utility/ExcelWrapper.java:77 | removeMergedRegions keeps, in order, exactly the regions whose positions are not listed (`DropIndices`), and leaves the rows alone |
| `Worksheet.Sheet.ShiftRows` | poi_feasibility/src/main/java/sugaryo/poi_feasibility/utility/ExcelWrapper.java:146 | shiftRows relocates the rows and the regions as `Shifted` and `ShiftedRegions` describe |
| `PoiUtil.PoiShiftRows` | poi_feasibility/src/main/java/sugaryo/poi_feasibility/utility/PoiUtil.java:123-131 | a zero shift leaves rows and regions unchanged; otherwise the rows from `baseRow` through the old last row number move by `shiftSize` (`ShiftsFrom`), and so do the regions inside that span |
| `PoiUtil.ShiftCarriesRowHeight` | poi_feasibility/src/main/java/sugaryo/poi_feasibility/utility/PoiUtil.java:128-130 | a row shifted up or down keeps its height at its new index, because rows move whole; a downward shift leaves no row at the vacated indices whose height could be reset |
| `PoiUtil.ShiftDownKeepsRowsAbove` | poi_feasibility/src/main/java/sugaryo/poi_feasibility/utility/PoiUtil.java:128 | a downward shift leaves every row before `baseRow` exactly as it was, present or absent |
| `RowOps.RangeIndices` | poi_feasibility/src/main/java/sugaryo/poi_feasibility/utility/ExcelWrapper.java:81-82 | the indices a selection covers are exactly `row1..row2`, and none when inverted |
| `RowOps.CountIsRangeSize` | poi_feasibility/src/main/java/sugaryo/poi_feasibility/utility/ExcelWrapper.java:62 | the inclusive count `row2 - row1 + 1` is the number of rows the selection covers, and it covers none when inverted |
| `RowOps.ContainedIndices` | poi_feasibility/src/main/java/sugaryo/poi_feasibility/utility/ExcelWrapper.java:66-76 | the unmerge loop lists exactly the positions of the regions with `row1 <= firstRow && lastRow <= row2`, whatever their columns, in increasing order; removing them leaves `Unmerged` |
| `RowOps.DropContainedIsUnmerged` | poi_feasibility/src/main/java/sugaryo/poi_feasibility/utility/ExcelWrapper.java:66-77 | removing the positions of exactly the contained regions yields the same list as `Unmerged` |
| `RowOps.UnmergedExactly` | poi_feasibility/src/main/java/sugaryo/poi_feasibility/utility/ExcelWrapper.java:73 | a region survives unmerging exactly when it was there and is not contained in the rows: straddling and outside regions are kept |
| `RowOps.UnmergedDistributes` | poi_feasibility/src/main/java/sugaryo/poi_feasibility/utility/ExcelWrapper.java:66-77 | unmerging a concatenation is the concatenation of the unmerged parts, so the survivors keep their original order |
| `RowOps.UnmergedKeepsUncontained` | poi_feasibility/src/main/java/sugaryo/poi_feasibility/utility/ExcelWrapper.java:73-75 | a list with no contained region is left exactly as it is |
| `RowOps.UnmergedIdempotent` | poi_feasibility/src/main/java/sugaryo/poi_feasibility/utility/ExcelWrapper.java:66-77 | unmerging the same rows a second time removes nothing more |
| `RowOps.ClearTwiceIsClearOnce` | poi_feasibility/src/main/java/sugaryo/poi_feasibility/utility/ExcelWrapper.java:81-86 | after a clear every selected row exists (so a second clear is allowed), and a second clear of the same rows changes nothing |
| `RowOps.HiddenRows` | poi_feasibility/src/main/java/sugaryo/poi_feasibility/utility/ExcelWrapper.java:98-102 | hiding keeps the same rows with the same cells and heights; a row ends up hidden exactly when it was hidden before or lies in the selection |
| `RowOps.HideTwiceIsHideOnce` | poi_feasibility/src/main/java/sugaryo/poi_feasibility/utility/ExcelWrapper.java:98-102 | hiding the same rows twice gives the same rows as hiding them once |
| `RowOps.RemoveRangeKeepsOutside` | poi_feasibility/src/main/java/sugaryo/poi_feasibility/utility/ExcelWrapper.java:139-143 | removing the selected rows keeps every row outside the selection unchanged |
| `RowOps.DeletedRowsShape` | poi_feasibility/src/main/java/sugaryo/poi_feasibility/utility/ExcelWrapper.java:139-146 | the rows after a delete are the rows outside the selection, shifted from `row2 + 1` by `-(row2 - row1 + 1)` (`DeleteShape`) |
| `RowOps.DeleteKeepsRowsAbove` | poi_feasibility/src/main/java/sugaryo/poi_feasibility/utility/ExcelWrapper.java:139-146 | after a delete, every index above `row1` holds what it held before, present or absent |
| `RowOps.DeleteMovesRowsBelow` | poi_feasibility/src/main/java/sugaryo/poi_feasibility/utility/ExcelWrapper.java:139-146 | after a delete, the row previously at `r > row2` is at `r - n`, with `n = row2 - row1 + 1` |
| `RowOps.DeleteLeavesNothingElse` | poi_feasibility/src/main/java/sugaryo/poi_feasibility/utility/ExcelWrapper.java:139-146 | after a delete, every row either was at the same index above `row1` or came from `n` rows further down, below `row2`: nothing of the deleted rows remains |
| `RowOps.DeleteInvertedMovesDown` | poi_feasibility/src/main/java/sugaryo/poi_feasibility/utility/ExcelWrapper.java:118-146 | on an inverted selection a delete removes nothing, keeps the rows up to `row2`, and moves each row after `row2` down by `row1 - row2 - 1` |
| `RowOps.DeleteThroughLastRowOnlyRemoves` | poi_feasibility/src/main/java/sugaryo/poi_feasibility/utility/ExcelWrapper.java:139-146 | when the selection reaches the last row number, the shift after the removal has an empty span, so a delete only removes the selected rows |
| `RowOps.DeleteEmptySelectionChangesNothing` | poi_feasibility/src/main/java/sugaryo/poi_feasibility/utility/ExcelWrapper.java:118-146 | a delete of the inverted selection `row1 == row2 + 1` removes nothing and shifts by zero, so it changes no row |
| `RowOps.DeleteExample` | poi_feasibility/src/main/java/sugaryo/poi_feasibility/utility/ExcelWrapper.java:114-148 | deleting rows 2..4 of rows 0..9 brings row 5 up to 2 and row 9 up to 6, which becomes the last row number |
| `RowOps.MergeBoundaryExample` | poi_feasibility/src/main/java/sugaryo/poi_feasibility/utility/ExcelWrapper.java:124-146 | deleting rows 4..5 unmerges a region over rows 4..5 and keeps, unmoved, a region over rows 3..6 |
| `Excel.Collapse` | poi_feasibility/src/main/java/sugaryo/poi_feasibility/utility/ExcelWrapper.java:219-226 | an absolute axis of a corner keeps its coordinate and a relative axis becomes 0, so a corner never resolves past what is written |
| `Excel.CollapseForgetsRelative` | poi_feasibility/src/main/java/sugaryo/poi_feasibility/utility/ExcelWrapper.java:222-223 | two corners differing only in their relative coordinates resolve to the same cell |
| `Excel.FindSheet` | poi_feasibility/src/main/java/sugaryo/poi_feasibility/utility/ExcelWrapper.java:170-173 | getSheet(name) is null exactly when no sheet has the name, and otherwise a workbook sheet with that name |
| `Excel.WithCell` | poi_feasibility/src/main/java/sugaryo/poi_feasibility/utility/ExcelWrapper.java:228-237 | after get-or-create the row and cell exist; an existing cell leaves the sheet unchanged; a new cell is blank; a new row is otherwise empty; the row's flag, height and other cells and all other rows are unchanged |
| `Excel.WithCellIdempotent` | poi_feasibility/src/main/java/sugaryo/poi_feasibility/utility/ExcelWrapper.java:228-237 | a second get-or-create of the same cell changes nothing |
| `Excel.ExcelWrapper.constructor` | poi_feasibility/src/main/java/sugaryo/poi_feasibility/utility/ExcelWrapper.java:154-157 | wrapping a workbook with at least one sheet selects its first sheet |
| `Excel.ExcelWrapper.Blank` | poi_feasibility/src/main/java/sugaryo/poi_feasibility/utility/ExcelWrapper.java:159-162 | a new workbook has one fresh, empty sheet named Sheet0, no names, and that sheet selected |
| `Excel.ExcelWrapper.SheetAt` | poi_feasibility/src/main/java/sugaryo/poi_feasibility/utility/ExcelWrapper.java:165-168 | an index inside the workbook selects that sheet; any other index fails and leaves the selection as it was; only `current` changes |
| `Excel.ExcelWrapper.SheetNamed` | poi_feasibility/src/main/java/sugaryo/poi_feasibility/utility/ExcelWrapper.java:170-173 | selects the sheet with that name, or no sheet when there is none; only `current` changes |
| `Excel.ExcelWrapper.Exists` | poi_feasibility/src/main/java/sugaryo/poi_feasibility/utility/ExcelWrapper.java:176-178 | true exactly when the workbook defines the name; `CellNamed` and `Range` fail with NameNotDefined exactly when it is false |
| `Excel.ExcelWrapper.XCell` | poi_feasibility/src/main/java/sugaryo/poi_feasibility/utility/ExcelWrapper.java:228-237 | the current sheet's rows become `WithCell` of the old rows; its regions are unchanged |
| `Excel.ExcelWrapper.XCellAt` | poi_feasibility/src/main/java/sugaryo/poi_feasibility/utility/ExcelWrapper.java:219-226 | gets or creates the cell the reference collapses to, and returns that position |
| `Excel.ExcelWrapper.Cell` | poi_feasibility/src/main/java/sugaryo/poi_feasibility/utility/ExcelWrapper.java:181-185 | returns a fresh handle on `(row, col)` of the current sheet, after get-or-create there |
| `Excel.ExcelWrapper.CellNamed` | poi_feasibility/src/main/java/sugaryo/poi_feasibility/utility/ExcelWrapper.java:188-200 | an unknown name fails and changes nothing; an area name fails and changes nothing. Otherwise it selects the sheet named in the reference (none if it is missing, which fails) and gets or creates the cell at the reference's row and column taken verbatim. No other sheet changes |
| `Excel.ExcelWrapper.Range` | poi_feasibility/src/main/java/sugaryo/poi_feasibility/utility/ExcelWrapper.java:203-216 | an unknown name fails and changes nothing. Otherwise it selects the name's sheet (none if it is missing, which fails), gets or creates both collapsed corners, and returns the selection of their rows; the columns are dropped. No other sheet changes |
| `Excel.CellContext.constructor` | poi_feasibility/src/main/java/sugaryo/poi_feasibility/utility/ExcelWrapper.java:31-33 | a cell handle remembers its sheet and position |
| `Excel.CellContext.Value` | poi_feasibility/src/main/java/sugaryo/poi_feasibility/utility/ExcelWrapper.java:36-40 | the cell afterwards holds the string; the row's other cells, its flag and height, all other rows and the regions are unchanged |
| `Excel.RangeContext.constructor` | poi_feasibility/src/main/java/sugaryo/poi_feasibility/utility/ExcelWrapper.java:50-53 | a selection remembers its wrapper and its two corner rows |
| `Excel.RangeContext.ClearRows` | poi_feasibility/src/main/java/sugaryo/poi_feasibility/utility/ExcelWrapper.java:56-89 | with every selected row present: the regions become `Unmerged`; each selected row exists and is empty; every other row is unchanged (`ClearedRows`) |
| `Excel.RangeContext.HideRows` | poi_feasibility/src/main/java/sugaryo/poi_feasibility/utility/ExcelWrapper.java:90-105 | with every selected row present: the rows become `HiddenRows` of the old rows, and the regions are unchanged |
| `Excel.RangeContext.InsertRows` | poi_feasibility/src/main/java/sugaryo/poi_feasibility/utility/ExcelWrapper.java:107-109 | always fails with NotImplemented and changes nothing |
| `Excel.RangeContext.InsertRowsWithCopy` | poi_feasibility/src/main/java/sugaryo/poi_feasibility/utility/ExcelWrapper.java:110-112 | always fails with NotImplemented and changes nothing, whatever `withCopy` is |
| `Excel.RangeContext.RemoveSelectedRows` | poi_feasibility/src/main/java/sugaryo/poi_feasibility/utility/ExcelWrapper.java:139-143 | with every selected row present, the rows become the old rows without the selection (`RemoveRange`), and the regions are unchanged |
| `Excel.RangeContext.DeleteRows` | poi_feasibility/src/main/java/sugaryo/poi_feasibility/utility/ExcelWrapper.java:114-149 | with every selected row present: the rows become `DeletedRows` of the old rows, and the regions become the unmerged regions shifted with the rows below the selection (`DeletedRegions`) |

## Left out

- File and stream I/O is not modelled: `serialize`, `output`, `open` and `read` in `PoiUtil.java`, and `binary`, `save` and `close` in `ExcelWrapper.java`.
- Report.java is a demo that writes two cells to a fixed path and is not part of this model.
- Formula parsing is not modelled; it belongs to POI's `CellReference` and `AreaReference`. Defined names carry already-parsed references.
  - An area name given to `cell(name)` is modelled as the NotACellReference failure.
  - Malformed formulas, and references without a sheet prefix, are not represented.
  - A single-cell name given to `range(name)` has that cell as both corners (`Corners`).
- POI internals of `shiftRows` are not modelled: formulas, comments, hyperlinks, page breaks and conditional formatting.
  - The relocation of merged regions is the stated assumption above.
  - Whether POI refuses a shift whose span is empty is not modelled; such a shift moves nothing here. Two deleteRows cases depend on this, and the model treats both as removal only:
    - a selection that reaches the last row calls `shiftRows(row2 + 1, last, -n)` with `last < row2 + 1` (`RowOps.DeleteThroughLastRowOnlyRemoves`);
    - the inverted selection `row1 == row2 + 1` shifts by zero, the case `poiShiftRows` skips at PoiUtil.java:126, though deleteRows calls `shiftRows` directly (`RowOps.DeleteEmptySelectionChangesNothing`).
- PoiUtil.ShiftCarriesRowHeight: the `COPY_ROW_HEIGHT` and `RESET_ORG_ROW_HEIGHT` constants are declared, but nothing in the model reads them. Each row moves whole, so neither option has any effect in the model. This holds both for `poiShiftRows`, which passes the options, and for deleteRows' three-argument `shiftRows` call, which uses POI's defaults.
- POI matches sheet names and defined names case-insensitively; the model uses exact matching.
- Java `int` indices and Excel's sheet limits are not modelled. Row and column indices are unbounded naturals, so the negative indices POI rejects cannot be expressed, and the 1,048,576-row and 16,384-column bounds are not enforced.
- Object identity of cells is not modelled.
  - `CellContext` holds a POI cell object; the model holds the cell's sheet and position.
  - `RangeContext` holds the two corner cell objects and reads their row indices at every call; the model fixes the two rows when the range is created.
  - A later shift or clear that moves or replaces a corner row can therefore change what the source reads; the model does not capture that.
  - `Excel.CellContext.Value` requires the cell to still exist, where the source would write into a detached cell.
- Failures that the source raises as exceptions on null objects are preconditions:
  - `Excel.ExcelWrapper.Cell`, `Excel.ExcelWrapper.XCell` and the row operations require a current sheet;
  - clear, hide and delete require every selected row to exist.
  Failures that come from the workbook's contents (an unknown name, a missing sheet, a sheet index out of range in `sheet(int)`) are modelled as `Err`/`Fail` results.
- Excel.ExcelWrapper.constructor: wrapping a workbook with no sheets fails in the source, at `getSheetAt(0)`. A constructor cannot return a failure, so the model requires at least one sheet.
- The fluent return values (`return this`) are not modelled.
- `Excel.FindSheet` does not state which of several sheets with the same name it returns. POI does not allow duplicate sheet names.
