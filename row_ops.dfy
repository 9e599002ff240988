/**
  What the row operations of a range selection do to a sheet, stated as functions and
  predicates over the row map and the merged-region list, with the lemmas that say what
  they mean. The selection is the pair of row indices (row1, row2) of its corner cells.
 */
module RowOps {
  import opened Worksheet

  /** The inclusive count of rows in a selection; zero or negative when row1 > row2. */
  function Count(row1: nat, row2: nat): int
  {
    row2 - row1 + 1
  }

  /** The row indices a selection covers, none when it is inverted. */
  function RangeIndices(row1: nat, row2: nat): (indices: set<nat>)
    ensures forall k :: k in indices <==> row1 <= k <= row2
    decreases row2 + 1 - row1
  {
    if row1 > row2 then {} else {row1} + RangeIndices(row1 + 1, row2)
  }

  /** A selection covers exactly Count(row1, row2) rows, and none when it is inverted. */
  lemma {:induction false} CountIsRangeSize(row1: nat, row2: nat)
    ensures |RangeIndices(row1, row2)| == if row1 <= row2 then Count(row1, row2) else 0
    decreases row2 + 1 - row1
  {
    if row1 <= row2 {
      CountIsRangeSize(row1 + 1, row2);
      assert row1 !in RangeIndices(row1 + 1, row2);
    }
  }

  /** Every row of the selection exists (the row operations dereference each one). */
  predicate RowsPresent(rows: map<nat, Row>, row1: nat, row2: nat)
  {
    forall k: nat :: row1 <= k <= row2 ==> k in rows
  }

  /** A merged region lies wholly inside the selected rows; its columns play no part. */
  predicate Contained(r: Region, row1: nat, row2: nat)
  {
    row1 <= r.firstRow && r.lastRow <= row2
  }

  /** The merged regions clearRows and deleteRows keep: those not contained in the rows, in order. */
  function Unmerged(regions: seq<Region>, row1: nat, row2: nat): seq<Region>
  {
    if regions == [] then []
    else
      var last := regions[|regions| - 1];
      Unmerged(regions[..|regions| - 1], row1, row2) + (if Contained(last, row1, row2) then [] else [last])
  }

  /** A region survives exactly when it was there and is not contained in the rows. */
  lemma {:induction false} UnmergedExactly(regions: seq<Region>, row1: nat, row2: nat)
    ensures forall r :: r in Unmerged(regions, row1, row2) <==> r in regions && !Contained(r, row1, row2)
  {
    if regions != [] {
      var init := regions[..|regions| - 1];
      UnmergedExactly(init, row1, row2);
      assert regions == init + [regions[|regions| - 1]];
    }
  }

  /** Unmerged works region by region: it commutes with concatenation, so the survivors keep their order. */
  lemma {:induction false} UnmergedDistributes(a: seq<Region>, b: seq<Region>, row1: nat, row2: nat)
    ensures Unmerged(a + b, row1, row2) == Unmerged(a, row1, row2) + Unmerged(b, row1, row2)
    decreases |b|
  {
    if b == [] {
      assert a + b == a;
    } else {
      var init := b[..|b| - 1];
      var last := b[|b| - 1];
      UnmergedDistributes(a, init, row1, row2);
      assert (a + b)[..|a + b| - 1] == a + init;
      assert (a + b)[|a + b| - 1] == last;
    }
  }

  /** A list with no region contained in the rows is left as it is. */
  lemma {:induction false} UnmergedKeepsUncontained(regions: seq<Region>, row1: nat, row2: nat)
    requires forall i :: 0 <= i < |regions| ==> !Contained(regions[i], row1, row2)
    ensures Unmerged(regions, row1, row2) == regions
  {
    if regions != [] {
      var init := regions[..|regions| - 1];
      UnmergedKeepsUncontained(init, row1, row2);
      assert init + [regions[|regions| - 1]] == regions;
    }
  }

  /** Unmerging the same rows twice removes nothing more. */
  lemma UnmergedIdempotent(regions: seq<Region>, row1: nat, row2: nat)
    ensures Unmerged(Unmerged(regions, row1, row2), row1, row2) == Unmerged(regions, row1, row2)
  {
    var u := Unmerged(regions, row1, row2);
    UnmergedExactly(regions, row1, row2);
    assert forall i :: 0 <= i < |u| ==> u[i] in u;
    UnmergedKeepsUncontained(u, row1, row2);
  }

  /**
    The unmerge loop collects the positions of the contained regions, in increasing order;
    removing those positions leaves exactly Unmerged.
   */
  method ContainedIndices(regions: seq<Region>, row1: nat, row2: nat) returns (unmerges: seq<nat>)
    ensures forall i: nat :: i in unmerges <==> i < |regions| && Contained(regions[i], row1, row2)
    ensures forall a, b :: 0 <= a < b < |unmerges| ==> unmerges[a] < unmerges[b]
    ensures DropIndices(regions, unmerges) == Unmerged(regions, row1, row2)
  {
    unmerges := [];
    var i := 0;
    while i < |regions|
      invariant 0 <= i <= |regions|
      invariant forall j: nat :: j in unmerges <==> j < i && Contained(regions[j], row1, row2)
      invariant forall a, b :: 0 <= a < b < |unmerges| ==> unmerges[a] < unmerges[b]
      invariant forall a :: 0 <= a < |unmerges| ==> unmerges[a] < i
    {
      if Contained(regions[i], row1, row2) {
        unmerges := unmerges + [i];
      }
      i := i + 1;
    }
    DropContainedIsUnmerged(regions, unmerges, row1, row2);
  }

  /** Removing the positions of exactly the contained regions is the same as Unmerged. */
  lemma {:induction false} DropContainedIsUnmerged(regions: seq<Region>, indices: seq<nat>, row1: nat, row2: nat)
    requires forall i: nat :: i < |regions| ==> (i in indices <==> Contained(regions[i], row1, row2))
    ensures DropIndices(regions, indices) == Unmerged(regions, row1, row2)
  {
    if regions != [] {
      var init := regions[..|regions| - 1];
      assert forall i: nat :: i < |init| ==> init[i] == regions[i];
      DropContainedIsUnmerged(init, indices, row1, row2);
    }
  }

  /** `after` is `before` with every selected row replaced by an empty row and every other row as it was. */
  ghost predicate ClearedRows(before: map<nat, Row>, after: map<nat, Row>, row1: nat, row2: nat)
  {
    && (forall k: nat :: row1 <= k <= row2 ==> k in after && after[k] == EmptyRow)
    && (forall k: nat :: !(row1 <= k <= row2) ==> (k in after <==> k in before))
    && (forall k: nat :: !(row1 <= k <= row2) && k in after ==> after[k] == before[k])
  }

  /** After a clear every selected row exists, and clearing again changes nothing. */
  lemma ClearTwiceIsClearOnce(rows: map<nat, Row>, once: map<nat, Row>, twice: map<nat, Row>, row1: nat, row2: nat)
    requires ClearedRows(rows, once, row1, row2)
    ensures RowsPresent(once, row1, row2)
    ensures ClearedRows(once, twice, row1, row2) ==> twice == once
  {
    if ClearedRows(once, twice, row1, row2) {
      forall k: nat
        ensures (k in twice <==> k in once) && (k in twice ==> twice[k] == once[k])
      {
        if row1 <= k <= row2 {
          assert k in once && k in twice;
        }
      }
      assert forall k :: k in twice <==> k in once;
    }
  }

  /** The rows after hideRows: the selected rows flagged zero-height, nothing else touched. */
  function HiddenRows(rows: map<nat, Row>, row1: nat, row2: nat): (after: map<nat, Row>)
    ensures after.Keys == rows.Keys
    ensures forall k :: k in rows ==> after[k].cells == rows[k].cells && after[k].height == rows[k].height
    ensures forall k :: k in rows ==> (after[k].zeroHeight <==> rows[k].zeroHeight || row1 <= k <= row2)
  {
    map k | k in rows :: if row1 <= k <= row2 then rows[k].(zeroHeight := true) else rows[k]
  }

  /** Hiding the same rows twice is hiding them once. */
  lemma HideTwiceIsHideOnce(rows: map<nat, Row>, row1: nat, row2: nat)
    ensures HiddenRows(HiddenRows(rows, row1, row2), row1, row2) == HiddenRows(rows, row1, row2)
  {
    var once := HiddenRows(rows, row1, row2);
    var twice := HiddenRows(once, row1, row2);
    forall k | k in twice
      ensures twice[k] == once[k]
    {
      assert once[k].zeroHeight == twice[k].zeroHeight;
    }
  }

  /** The rows left once the selected rows are removed. */
  function RemoveRange(rows: map<nat, Row>, row1: nat, row2: nat): map<nat, Row>
  {
    map k | k in rows && !(row1 <= k <= row2) :: rows[k]
  }

  /**
    The rows after deleteRows: the selected rows removed, then the rows from row2 + 1 through
    the last row number shifted by -Count(row1, row2).
   */
  function DeletedRows(rows: map<nat, Row>, row1: nat, row2: nat): map<nat, Row>
  {
    ShiftedToEnd(RemoveRange(rows, row1, row2), row2 + 1, row1 - row2 - 1)
  }

  /** The merged regions after deleteRows: contained ones unmerged, the rest shifted with their rows. */
  function DeletedRegions(regions: seq<Region>, rows: map<nat, Row>, row1: nat, row2: nat): seq<Region>
  {
    ShiftedRegions(Unmerged(regions, row1, row2), row2 + 1, LastRowNum(RemoveRange(rows, row1, row2)), row1 - row2 - 1)
  }

  /** `after` is what deleting [row1, row2] leaves: the other rows, shifted from row2 + 1 by -Count(row1, row2). */
  ghost predicate DeleteShape(rows: map<nat, Row>, after: map<nat, Row>, row1: nat, row2: nat)
  {
    ShiftsFrom(RemoveRange(rows, row1, row2), after, row2 + 1, row1 - row2 - 1)
  }

  /** DeletedRows has the shape of a delete; the lemmas below describe every such shape. */
  lemma DeletedRowsShape(rows: map<nat, Row>, row1: nat, row2: nat)
    ensures DeleteShape(rows, DeletedRows(rows, row1, row2), row1, row2)
  {
    ShiftedToEndShifts(RemoveRange(rows, row1, row2), row2 + 1, row1 - row2 - 1);
  }

  /** The rows outside the selection survive the removal as they were. */
  lemma RemoveRangeKeepsOutside(rows: map<nat, Row>, row1: nat, row2: nat)
    ensures forall k: nat :: k in rows && !(row1 <= k <= row2) ==>
              k in RemoveRange(rows, row1, row2) && RemoveRange(rows, row1, row2)[k] == rows[k]
  {
  }

  /** deleteRows leaves the rows above the selection untouched. */
  lemma DeleteKeepsRowsAbove(rows: map<nat, Row>, after: map<nat, Row>, row1: nat, row2: nat)
    requires row1 <= row2 && DeleteShape(rows, after, row1, row2)
    ensures forall k: nat :: k < row1 ==> SameAt(rows, after, k)
  {
    var m := row1 - row2 - 1;
    RemoveRangeKeepsOutside(rows, row1, row2);
    forall k: nat | k < row1
      ensures SameAt(rows, after, k)
    {
      var o := Origin(k, m);
    }
  }

  /** deleteRows moves the row previously at r > row2 up to r - Count(row1, row2). */
  lemma DeleteMovesRowsBelow(rows: map<nat, Row>, after: map<nat, Row>, row1: nat, row2: nat)
    requires row1 <= row2 && DeleteShape(rows, after, row1, row2)
    ensures forall r: nat :: r in rows && row2 < r ==>
              r - Count(row1, row2) in after && after[r - Count(row1, row2)] == rows[r]
  {
    var m := row1 - row2 - 1;
    RemoveRangeKeepsOutside(rows, row1, row2);
    forall r: nat | r in rows && row2 < r
      ensures r - Count(row1, row2) in after && after[r - Count(row1, row2)] == rows[r]
    {
      assert Landing(r, m) == r - Count(row1, row2);
    }
  }

  /**
    After deleteRows every row comes from above the selection (same index) or from below it
    (Count(row1, row2) further down): nothing of the deleted rows is left.
   */
  lemma DeleteLeavesNothingElse(rows: map<nat, Row>, after: map<nat, Row>, row1: nat, row2: nat)
    requires row1 <= row2 && DeleteShape(rows, after, row1, row2)
    ensures forall d: nat :: d in after ==>
              || (d < row1 && d in rows && after[d] == rows[d])
              || (row2 < d + Count(row1, row2) && d + Count(row1, row2) in rows && after[d] == rows[d + Count(row1, row2)])
  {
    var m := row1 - row2 - 1;
    forall d: nat | d in after
      ensures || (d < row1 && d in rows && after[d] == rows[d])
              || (row2 < d + Count(row1, row2) && d + Count(row1, row2) in rows && after[d] == rows[d + Count(row1, row2)])
    {
      var o := Origin(d, m);
      assert o == d + Count(row1, row2);
    }
  }

  /**
    On an inverted selection (row1 > row2) deleteRows removes nothing and moves the rows after
    row2 down by row1 - row2 - 1, leaving the rows up to row2 alone.
   */
  lemma DeleteInvertedMovesDown(rows: map<nat, Row>, after: map<nat, Row>, row1: nat, row2: nat)
    requires row2 < row1 && DeleteShape(rows, after, row1, row2)
    ensures forall k: nat :: k in rows && k <= row2 ==> k in after && after[k] == rows[k]
    ensures forall k: nat :: k in rows && row2 < k ==>
              k + (row1 - row2 - 1) in after && after[k + (row1 - row2 - 1)] == rows[k]
  {
    var m := row1 - row2 - 1;
    RemoveRangeKeepsOutside(rows, row1, row2);
    forall k: nat | k in rows && row2 < k
      ensures k + m in after && after[k + m] == rows[k]
    {
      assert Landing(k, m) == k + m;
    }
  }

  /**
    A delete whose selection reaches the last row number only removes rows: the shift that
    follows has an empty span and moves nothing.
   */
  lemma DeleteThroughLastRowOnlyRemoves(rows: map<nat, Row>, row1: nat, row2: nat)
    requires LastRowNum(rows) <= row2
    ensures DeletedRows(rows, row1, row2) == RemoveRange(rows, row1, row2)
  {
    var kept := RemoveRange(rows, row1, row2);
    var last := LastRowNum(kept);
    assert last <= row2 by {
      if kept != map[] {
        assert last in rows;
      }
    }
    var after := Shifted(kept, row2 + 1, last, row1 - row2 - 1);
    forall d: nat
      ensures (d in after <==> d in kept) && (d in after ==> after[d] == kept[d])
    {
      ShiftedAt(kept, row2 + 1, last, row1 - row2 - 1, d);
    }
    assert forall d :: d in after <==> d in kept;
  }

  /** A delete of the empty selection row1 == row2 + 1 shifts by zero and changes nothing. */
  lemma DeleteEmptySelectionChangesNothing(rows: map<nat, Row>, row2: nat)
    ensures DeletedRows(rows, row2 + 1, row2) == rows
  {
    var kept := RemoveRange(rows, row2 + 1, row2);
    assert forall k :: k in kept <==> k in rows;
    assert kept == rows;
    ShiftedByZero(rows, row2 + 1, LastRowNum(rows));
  }

  /** Rows 0..9, each marked by a height equal to its index. */
  function TenRows(): map<nat, Row>
  {
    map k: nat | k < 10 :: Row(map[], false, Twips(k))
  }

  /** Deleting rows 2..4 of ten brings row 5 up to 2 and row 9 up to 6, which becomes the last row. */
  lemma DeleteExample(after: map<nat, Row>)
    requires DeleteShape(TenRows(), after, 2, 4)
    ensures 2 in after && after[2].height == Twips(5)
    ensures 6 in after && after[6].height == Twips(9)
    ensures LastRowNum(after) == 6
  {
    var rows := TenRows();
    DeleteMovesRowsBelow(rows, after, 2, 4);
    DeleteLeavesNothingElse(rows, after, 2, 4);
    assert 5 in rows && 9 in rows;
    forall d | d in after
      ensures d <= 6
    {
      assert Count(2, 4) == 3;
      if 2 <= d {
        assert d + 3 in rows;
      }
    }
    var last := LastRowNum(after);
    assert 6 in after;
  }

  /**
    Deleting rows 4..5 unmerges a region over rows 4..5 but keeps one over rows 3..6, which
    straddles the selection and is therefore not moved either.
   */
  lemma MergeBoundaryExample(rows: map<nat, Row>)
    ensures DeletedRegions([Bounds(3, 6, 0, 1), Bounds(4, 5, 0, 1)], rows, 4, 5) == [Bounds(3, 6, 0, 1)]
  {
    var regions: seq<Region> := [Bounds(3, 6, 0, 1), Bounds(4, 5, 0, 1)];
    assert regions[..1] == [Bounds(3, 6, 0, 1)];
    assert Unmerged(regions, 4, 5) == [Bounds(3, 6, 0, 1)];
  }
}
