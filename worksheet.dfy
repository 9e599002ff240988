/**
  The worksheet the wrapper drives: a sparse map of rows, each a sparse map of cells, plus the
  sheet's merged regions. The methods of `Sheet` are the worksheet operations the wrapper calls
  (getRow, createRow, removeRow, createCell, setZeroHeight, setCellValue, removeMergedRegions,
  getLastRowNum, shiftRows); their bodies state only what the wrapper relies on.
 */
module Worksheet {

  /** A cell's content: a freshly created cell is blank until a string is written into it. */
  datatype Cell = Blank | Text(text: string)

  /** A row's height: the sheet's default height, or an explicit height in twips. */
  datatype Height = SheetDefault | Twips(twips: nat)

  /** A row: its cells by column index, its hidden (zero-height) flag and its height. */
  datatype Row = Row(cells: map<nat, Cell>, zeroHeight: bool, height: Height)

  /** The inclusive row and column bounds of a cell range address. */
  datatype Bounds = Bounds(firstRow: nat, lastRow: nat, firstCol: nat, lastCol: nat)

  /** A merged-cell region: well-formed bounds (a malformed region is not valid sheet input). */
  type Region = b: Bounds | b.firstRow <= b.lastRow && b.firstCol <= b.lastCol witness Bounds(0, 0, 0, 0)

  /** The row that createRow puts in place: no cells, visible, default height. */
  const EmptyRow := Row(map[], false, SheetDefault)

  /** `b` holds at key `k` exactly what `a` holds there (or both hold nothing). */
  predicate SameAt<K, V(==)>(a: map<K, V>, b: map<K, V>, k: K)
  {
    (k in a <==> k in b) && (k in a ==> a[k] == b[k])
  }

  /** `last` is the sheet's last row number: its greatest row index, or -1 for a sheet without rows. */
  predicate IsLastRowNum(keys: set<nat>, last: int)
  {
    && (keys == {} ==> last == -1)
    && (keys != {} ==> last in keys && forall k :: k in keys ==> k <= last)
  }

  lemma {:induction false} LastRowNumExists(keys: set<nat>)
    ensures exists last :: IsLastRowNum(keys, last)
    decreases keys
  {
    if keys == {} {
      assert IsLastRowNum(keys, -1);
    } else {
      var k :| k in keys;
      var rest := keys - {k};
      LastRowNumExists(rest);
      var m: int :| IsLastRowNum(rest, m);
      assert forall j :: j in keys ==> j == k || j in rest;
      if k > m {
        assert IsLastRowNum(keys, k);
      } else {
        assert IsLastRowNum(keys, m);
      }
    }
  }

  /** getLastRowNum: the greatest row index present, -1 when the sheet has no rows. */
  function LastRowNum(rows: map<nat, Row>): (last: int)
    ensures IsLastRowNum(rows.Keys, last)
    ensures last >= -1
  {
    LastRowNumExists(rows.Keys);
    var last :| IsLastRowNum(rows.Keys, last);
    last
  }

  /** The index a row shifted by `n` onto index `d` came from. */
  function Origin(d: nat, n: int): int
  {
    d - n
  }

  /**
    The rows after shiftRows(start, end, n): each row in [start, end] moves to its index + n
    (the whole row, so its cells, hidden flag and height travel with it); a row outside that
    span but inside the destination span [start + n, end + n] is overwritten; every other row
    stays where it is.
   */
  function Shifted(rows: map<nat, Row>, start: nat, end: int, n: int): map<nat, Row>
    requires start + n >= 0
  {
    var moved := map d: nat | start + n <= d <= end + n && Origin(d, n) in rows :: rows[Origin(d, n)];
    var stay := map k: nat | k in rows && !(start <= k <= end) && !(start + n <= k <= end + n) :: rows[k];
    stay + moved
  }

  /** What `Shifted` holds at one index `d`. */
  lemma ShiftedAt(rows: map<nat, Row>, start: nat, end: int, n: int, d: nat)
    requires start + n >= 0
    ensures start + n <= d <= end + n ==>
              (d in Shifted(rows, start, end, n) <==> d - n in rows) &&
              (d - n in rows ==> Shifted(rows, start, end, n)[d] == rows[d - n])
    ensures !(start + n <= d <= end + n) ==>
              (d in Shifted(rows, start, end, n) <==> d in rows && !(start <= d <= end)) &&
              (d in Shifted(rows, start, end, n) ==> Shifted(rows, start, end, n)[d] == rows[d])
  {
  }

  /** The shift the wrapper always asks for: from `base` through the sheet's last row. */
  function ShiftedToEnd(rows: map<nat, Row>, base: nat, n: int): map<nat, Row>
    requires base + n >= 0
  {
    Shifted(rows, base, LastRowNum(rows), n)
  }

  /** The index a row at `k` lands on when shifted by `n` (used only where k + n >= 0). */
  function Landing(k: nat, n: int): nat
  {
    if k + n >= 0 then k + n else 0
  }

  /** Every row of `before` at or after `base` sits, whole, at its index + n in `after`. */
  ghost predicate MovesFrom(before: map<nat, Row>, after: map<nat, Row>, base: nat, n: int)
  {
    forall k: nat {:trigger Landing(k, n)} :: k in before && base <= k ==> Landing(k, n) in after && after[Landing(k, n)] == before[k]
  }

  /** Every row of `before` lying before both `base` and the destination is untouched in `after`. */
  ghost predicate KeepsBefore(before: map<nat, Row>, after: map<nat, Row>, base: nat, n: int)
  {
    forall k: nat :: k in before && k < base && k < base + n ==> k in after && after[k] == before[k]
  }

  /** Every row of `after` is a moved row of `before` or one of its rows that stayed before `base`. */
  ghost predicate InventsNothing(before: map<nat, Row>, after: map<nat, Row>, base: nat, n: int)
  {
    forall d: nat {:trigger Origin(d, n)} :: d in after ==>
      || (Origin(d, n) >= base && Origin(d, n) in before && after[d] == before[Origin(d, n)])
      || (d < base && d in before && after[d] == before[d])
  }

  /** `after` is `before` with every row from `base` on shifted by `n`. */
  ghost predicate ShiftsFrom(before: map<nat, Row>, after: map<nat, Row>, base: nat, n: int)
  {
    MovesFrom(before, after, base, n) && KeepsBefore(before, after, base, n) && InventsNothing(before, after, base, n)
  }

  /**
    Shifting from `base` through the last row number moves every row from `base` on, keeps the
    rows before both `base` and the destination, and invents nothing.
   */
  lemma ShiftedToEndShifts(rows: map<nat, Row>, base: nat, n: int)
    requires base + n >= 0
    ensures ShiftsFrom(rows, ShiftedToEnd(rows, base, n), base, n)
  {
    var last := LastRowNum(rows);
    var after := ShiftedToEnd(rows, base, n);
    forall k: nat | k in rows && base <= k
      ensures Landing(k, n) in after && after[Landing(k, n)] == rows[k]
    {
      ShiftedAt(rows, base, last, n, k + n);
    }
    forall k: nat | k in rows && k < base && k < base + n
      ensures k in after && after[k] == rows[k]
    {
      ShiftedAt(rows, base, last, n, k);
    }
    forall d: nat | d in after
      ensures || (Origin(d, n) >= base && Origin(d, n) in rows && after[d] == rows[Origin(d, n)])
              || (d < base && d in rows && after[d] == rows[d])
    {
      ShiftedAt(rows, base, last, n, d);
      if !(base + n <= d <= last + n) {
        assert d in rows && !(base <= d <= last);
        assert d <= last;
      }
    }
  }

  /** A shift by zero is the identity, whatever the span. */
  lemma ShiftedByZero(rows: map<nat, Row>, start: nat, end: int)
    ensures Shifted(rows, start, end, 0) == rows
  {
    var after := Shifted(rows, start, end, 0);
    forall d: nat
      ensures (d in after <==> d in rows) && (d in after ==> after[d] == rows[d])
    {
      ShiftedAt(rows, start, end, 0, d);
    }
    assert forall d :: d in after <==> d in rows;
  }

  /** A shift down by `s` from `base` followed by a shift up by `s` from `base + s` keeps every row where it was. */
  lemma ShiftBackKeeps(rows: map<nat, Row>, down: map<nat, Row>, back: map<nat, Row>, base: nat, s: nat, d: nat)
    requires MovesFrom(rows, down, base, s) && KeepsBefore(rows, down, base, s)
    requires MovesFrom(down, back, base + s, -(s as int)) && KeepsBefore(down, back, base + s, -(s as int))
    requires d in rows
    ensures d in back && back[d] == rows[d]
  {
    if base <= d {
      var up: nat := d + s;
      assert Landing(d, s) == up;
      assert up in down && down[up] == rows[d];
      assert Landing(up, -(s as int)) == d;
    } else {
      assert d in down && down[d] == rows[d];
    }
  }

  /** ... and brings back no row that was not there. */
  lemma ShiftBackOnly(rows: map<nat, Row>, down: map<nat, Row>, back: map<nat, Row>, base: nat, s: nat, d: nat)
    requires InventsNothing(rows, down, base, s)
    requires InventsNothing(down, back, base + s, -(s as int))
    requires d in back
    ensures d in rows
  {
    var up := Origin(d, -(s as int));
    var below := Origin(d, s);
    if up >= base + s && up in down {
      var o := Origin(up, s);
      assert o == d;
    } else {
      assert d in down;
    }
  }

  /**
    Shifting down by `s` from `base` and then up by `s` (`n`) from `base + s` (`up`) gives back
    the rows (with ShiftedToEndShifts, this holds of two ShiftedToEnd calls).
   */
  lemma ShiftBackRestores(rows: map<nat, Row>, down: map<nat, Row>, back: map<nat, Row>, base: nat, s: nat, up: nat, n: int)
    requires up == base + s && n == -(s as int)
    requires ShiftsFrom(rows, down, base, s)
    requires ShiftsFrom(down, back, up, n)
    ensures back == rows
  {
    forall d: nat
      ensures (d in back <==> d in rows) && (d in back ==> back[d] == rows[d])
    {
      if d in rows {
        ShiftBackKeeps(rows, down, back, base, s, d);
      } else if d in back {
        ShiftBackOnly(rows, down, back, base, s, d);
      }
    }
    assert forall d :: d in back <==> d in rows;
  }

  /**
    Shifting the rows from `base` to the end down by `s`, then those from `up` = `base + s` to
    the end up by `s` (`n` = -s), restores them.
   */
  lemma ShiftDownThenUpRestores(rows: map<nat, Row>, base: nat, s: nat, up: nat, n: int)
    requires up == base + s && n == -(s as int)
    ensures ShiftedToEnd(ShiftedToEnd(rows, base, s), up, n) == rows
  {
    var down := ShiftedToEnd(rows, base, s);
    ShiftedToEndShifts(rows, base, s);
    ShiftedToEndShifts(down, up, n);
    ShiftBackRestores(rows, down, ShiftedToEnd(down, up, n), base, s, up, n);
  }

  /** A region lies wholly inside the row span [start, end]. */
  predicate WithinRows(r: Region, start: int, end: int)
  {
    start <= r.firstRow && r.lastRow <= end
  }

  /**
    The merged regions after shiftRows(start, end, n): a region lying wholly inside the shifted
    span moves with its rows; every other region is left alone.
   */
  function ShiftedRegions(regions: seq<Region>, start: nat, end: int, n: int): (after: seq<Region>)
    requires start + n >= 0
    ensures |after| == |regions|
    ensures forall i :: 0 <= i < |regions| && !WithinRows(regions[i], start, end) ==> after[i] == regions[i]
    ensures forall i :: 0 <= i < |regions| && WithinRows(regions[i], start, end) ==>
              after[i].firstRow == regions[i].firstRow + n && after[i].lastRow == regions[i].lastRow + n &&
              after[i].firstCol == regions[i].firstCol && after[i].lastCol == regions[i].lastCol
  {
    seq(|regions|, i requires 0 <= i < |regions| =>
      var r := regions[i];
      if WithinRows(r, start, end)
      then Bounds((r.firstRow + n) as nat, (r.lastRow + n) as nat, r.firstCol, r.lastCol)
      else r)
  }

  /** The list left by removeMergedRegions(indices): the regions whose positions are not listed, in order. */
  function DropIndices<T>(s: seq<T>, indices: seq<nat>): (kept: seq<T>)
    ensures |kept| <= |s|
  {
    if s == [] then []
    else DropIndices(s[..|s| - 1], indices) + (if |s| - 1 in indices then [] else [s[|s| - 1]])
  }

  /** One worksheet, updated in place. */
  class Sheet {
    const name: string
    var rows: map<nat, Row>
    var merged: seq<Region>

    constructor (name: string, rows: map<nat, Row>, merged: seq<Region>)
      ensures this.name == name && this.rows == rows && this.merged == merged
    {
      this.name := name;
      this.rows := rows;
      this.merged := merged;
    }

    /** The cell at (row, col) exists. */
    predicate HasCell(row: nat, col: nat)
      reads this
    {
      row in rows && col in rows[row].cells
    }

    /** createRow: an empty row at `row`, replacing whatever was there. */
    method CreateRow(row: nat)
      modifies this
      ensures rows == old(rows)[row := EmptyRow] && merged == old(merged)
    {
      rows := rows[row := EmptyRow];
    }

    /** removeRow: the row object must exist (a null row is dereferenced). */
    method RemoveRow(row: nat)
      requires row in rows
      modifies this
      ensures rows == old(rows) - {row} && merged == old(merged)
    {
      rows := rows - {row};
    }

    /** createCell on an existing row: a blank cell at `col`. */
    method CreateCell(row: nat, col: nat)
      requires row in rows
      modifies this
      ensures rows == old(rows)[row := old(rows)[row].(cells := old(rows)[row].cells[col := Blank])]
      ensures merged == old(merged)
    {
      rows := rows[row := rows[row].(cells := rows[row].cells[col := Blank])];
    }

    /** setZeroHeight(true) on an existing row. */
    method HideRow(row: nat)
      requires row in rows
      modifies this
      ensures rows == old(rows)[row := old(rows)[row].(zeroHeight := true)] && merged == old(merged)
    {
      rows := rows[row := rows[row].(zeroHeight := true)];
    }

    /** setCellValue(String) on an existing cell. */
    method SetCellValue(row: nat, col: nat, text: string)
      requires HasCell(row, col)
      modifies this
      ensures rows == old(rows)[row := old(rows)[row].(cells := old(rows)[row].cells[col := Text(text)])]
      ensures merged == old(merged)
    {
      rows := rows[row := rows[row].(cells := rows[row].cells[col := Text(text)])];
    }

    /** removeMergedRegions(indices): keeps, in order, the regions whose positions are not listed. */
    method RemoveMergedRegions(indices: seq<nat>)
      modifies this
      ensures merged == DropIndices(old(merged), indices) && rows == old(rows)
    {
      var kept: seq<Region> := [];
      var i := 0;
      while i < |merged|
        invariant 0 <= i <= |merged|
        invariant kept == DropIndices(merged[..i], indices)
      {
        assert merged[..i + 1][..i] == merged[..i];
        if i !in indices {
          kept := kept + [merged[i]];
        }
        i := i + 1;
      }
      assert merged[..|merged|] == merged;
      merged := kept;
    }

    /** shiftRows(start, end, n): rows and the regions wholly inside [start, end] move by n. */
    method ShiftRows(start: nat, end: int, n: int)
      requires start + n >= 0
      modifies this
      ensures rows == Shifted(old(rows), start, end, n)
      ensures merged == ShiftedRegions(old(merged), start, end, n)
    {
      rows := Shifted(rows, start, end, n);
      merged := ShiftedRegions(merged, start, end, n);
    }
  }
}
