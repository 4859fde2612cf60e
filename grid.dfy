/**
 * Value-level view of a workspace's layout table: a column-major grid
 * `t[col][row]` of cells, and the sweeps that the table code performs on it.
 * Focus is given as the set of cells whose `currently_focused` is set.
 */
module Grid {

  datatype Option<T> = None | Some(value: T)

  /** Every column of `t` has exactly `rows` cells. */
  ghost predicate IsRect<T>(t: seq<seq<T>>, rows: nat) {
    forall c :: 0 <= c < |t| ==> |t[c]| == rows
  }

  /** `s` without its element at index `i`. */
  function RemoveAt<T>(s: seq<T>, i: nat): (r: seq<T>)
    requires i < |s|
    ensures |r| == |s| - 1
    ensures forall k :: 0 <= k < i ==> r[k] == s[k]
    ensures forall k :: i <= k < |r| ==> r[k] == s[k + 1]
  {
    s[..i] + s[i + 1..]
  }

  /** A line (a column, or a row read across the columns) none of whose cells is focused. */
  predicate Blank<T(==)>(line: seq<T>, focused: set<T>) {
    forall x :: x in line ==> x !in focused
  }

  /** Row `j` of the column-major grid `t`, read from left to right. */
  function RowOf<T>(t: seq<seq<T>>, j: nat): (r: seq<T>)
    requires forall c :: 0 <= c < |t| ==> j < |t[c]|
    ensures |r| == |t|
    ensures forall c :: 0 <= c < |t| ==> r[c] == t[c][j]
  {
    seq(|t|, c requires 0 <= c < |t| => t[c][j])
  }

  /** Removes row `j` from every column. */
  function RemoveRow<T>(t: seq<seq<T>>, j: nat): (r: seq<seq<T>>)
    requires forall c :: 0 <= c < |t| ==> j < |t[c]|
    ensures |r| == |t|
    ensures forall c :: 0 <= c < |t| ==> r[c] == RemoveAt(t[c], j)
  {
    seq(|t|, c requires 0 <= c < |t| => RemoveAt(t[c], j))
  }

  /** The grid whose columns are the `rows` rows of `t`. */
  function Transpose<T>(t: seq<seq<T>>, rows: nat): (r: seq<seq<T>>)
    requires IsRect(t, rows)
    ensures |r| == rows && IsRect(r, |t|)
    ensures forall j, c :: 0 <= j < rows && 0 <= c < |t| ==> r[j][c] == t[c][j]
  {
    seq(rows, j requires 0 <= j < rows => RowOf(t, j))
  }

  // ---------------------------------------------------------------------------
  // Compaction sweeps (cleanup_table)
  // ---------------------------------------------------------------------------

  /**
   * The column sweep of cleanup_table, from scan index `i`: while more than one
   * column is left and `i` is in range, a blank column at `i` is removed and `i`
   * is tested again; otherwise `i` advances.
   */
  function ColumnPass<T(==)>(t: seq<seq<T>>, i: nat, focused: set<T>): (r: seq<seq<T>>)
    ensures 1 <= |t| ==> 1 <= |r| <= |t|
    decreases |t|, |t| - i
  {
    if |t| <= 1 || i >= |t| then t
    else if Blank(t[i], focused) then ColumnPass(RemoveAt(t, i), i, focused)
    else ColumnPass(t, i + 1, focused)
  }

  /** The column sweep keeps at least one column, and every column keeps its height. */
  lemma {:induction false} ColumnPassShape<T>(t: seq<seq<T>>, i: nat, focused: set<T>, rows: nat)
    requires IsRect(t, rows)
    ensures |t| >= 1 ==> |ColumnPass(t, i, focused)| >= 1
    ensures IsRect(ColumnPass(t, i, focused), rows)
    decreases |t|, |t| - i
  {
    if |t| <= 1 || i >= |t| {
    } else if Blank(t[i], focused) {
      ColumnPassShape(RemoveAt(t, i), i, focused, rows);
    } else {
      ColumnPassShape(t, i + 1, focused, rows);
    }
  }

  /** cleanup_table's whole effect on a grid: the column sweep, then the row sweep. */
  ghost function Compacted<T>(t: seq<seq<T>>, focused: set<T>): (r: seq<seq<T>>)
    requires |t| >= 1 && IsRect(t, |t[0]|)
    ensures 1 <= |r| <= |t|
  {
    ColumnPassShape(t, 0, focused, |t[0]|);
    RowPass(ColumnPass(t, 0, focused), 0, focused)
  }

  /**
   * After both sweeps the grid is still non-empty and rectangular, no larger
   * than before, and either one column is left or no column is blank, and
   * either one row is left or no row is blank.
   */
  lemma CompactedOutcome<T>(t: seq<seq<T>>, focused: set<T>)
    requires |t| >= 1 && 1 <= |t[0]| && IsRect(t, |t[0]|)
    ensures 1 <= |Compacted(t, focused)| <= |t|
    ensures 1 <= |Compacted(t, focused)[0]| <= |t[0]|
    ensures IsRect(Compacted(t, focused), |Compacted(t, focused)[0]|)
    ensures |Compacted(t, focused)| == 1 ||
            forall c :: 0 <= c < |Compacted(t, focused)| ==> !Blank(Compacted(t, focused)[c], focused)
    ensures |Compacted(t, focused)[0]| == 1 ||
            forall j :: 0 <= j < |Compacted(t, focused)[0]| ==> !Blank(RowOf(Compacted(t, focused), j), focused)
  {
    ColumnPassShape(t, 0, focused, |t[0]|);
    ColumnPassOutcome(t, focused);
    var m := ColumnPass(t, 0, focused);
    RowPassKeepsLiveColumns(m, focused);
    RowPassOutcome(m, focused);
  }

  /** The row sweep of cleanup_table, over the rows of the rectangular grid `t`. */
  function RowPass<T(==)>(t: seq<seq<T>>, j: nat, focused: set<T>): (r: seq<seq<T>>)
    requires |t| >= 1 && IsRect(t, |t[0]|)
    ensures |r| == |t|
    decreases |t[0]|, |t[0]| - j
  {
    if |t[0]| <= 1 || j >= |t[0]| then t
    else if Blank(RowOf(t, j), focused) then RowPass(RemoveRow(t, j), j, focused)
    else RowPass(t, j + 1, focused)
  }

  /** Reference definition: the lines of `t` that are not blank, in their order. */
  function NonBlank<T(==)>(t: seq<seq<T>>, focused: set<T>): seq<seq<T>> {
    if t == [] then []
    else (if Blank(t[0], focused) then [] else [t[0]]) + NonBlank(t[1..], focused)
  }

  lemma {:induction false} NonBlankAppend<T>(a: seq<seq<T>>, b: seq<seq<T>>, focused: set<T>)
    ensures NonBlank(a + b, focused) == NonBlank(a, focused) + NonBlank(b, focused)
  {
    if a == [] {
      assert a + b == b;
    } else {
      assert (a + b)[0] == a[0];
      assert (a + b)[1..] == a[1..] + b;
      NonBlankAppend(a[1..], b, focused);
    }
  }

  /** Filtering keeps exactly the non-blank lines. */
  lemma {:induction false} NonBlankMembers<T>(t: seq<seq<T>>, focused: set<T>)
    ensures forall line :: line in NonBlank(t, focused) ==> !Blank(line, focused)
    ensures forall c :: 0 <= c < |t| && !Blank(t[c], focused) ==> t[c] in NonBlank(t, focused)
    ensures (forall c :: 0 <= c < |t| ==> !Blank(t[c], focused)) ==> NonBlank(t, focused) == t
  {
    if t != [] {
      NonBlankMembers(t[1..], focused);
      forall c | 0 <= c < |t| && !Blank(t[c], focused)
        ensures t[c] in NonBlank(t, focused)
      {
        if c > 0 {
          assert t[c] == t[1..][c - 1];
        }
      }
      if forall c :: 0 <= c < |t| ==> !Blank(t[c], focused) {
        assert forall c :: 0 <= c < |t[1..]| ==> !Blank(t[1..][c], focused) by {
          forall c | 0 <= c < |t[1..]| ensures !Blank(t[1..][c], focused) {
            assert t[1..][c] == t[c + 1];
          }
        }
        assert [t[0]] + t[1..] == t;
      }
    }
  }

  /**
   * The column sweep removes exactly the blank columns, keeping the others in
   * their order, unless every column is blank: then only the last one is left.
   */
  lemma {:induction false} ColumnPassIsFilter<T>(t: seq<seq<T>>, i: nat, focused: set<T>)
    requires 1 <= |t| && i <= |t|
    requires forall k :: 0 <= k < i ==> !Blank(t[k], focused)
    ensures ColumnPass(t, i, focused) ==
            if NonBlank(t, focused) == [] then [t[|t| - 1]] else NonBlank(t, focused)
    decreases |t|, |t| - i
  {
    if |t| <= 1 {
      assert t == [t[0]];
      assert t[1..] == [];
    } else if i >= |t| {
      NonBlankMembers(t, focused);
    } else if Blank(t[i], focused) {
      ColumnPassIsFilter(RemoveAt(t, i), i, focused);
      ColumnPassDropStep(t, i, focused);
    } else {
      ColumnPassIsFilter(t, i + 1, focused);
    }
  }

  /** The step of ColumnPassIsFilter that removes the blank column `i`. */
  lemma ColumnPassDropStep<T>(t: seq<seq<T>>, i: nat, focused: set<T>)
    requires 1 < |t| && i < |t| && Blank(t[i], focused)
    requires forall k :: 0 <= k < i ==> !Blank(t[k], focused)
    requires ColumnPass(RemoveAt(t, i), i, focused) ==
             if NonBlank(RemoveAt(t, i), focused) == [] then [RemoveAt(t, i)[|t| - 2]] else NonBlank(RemoveAt(t, i), focused)
    ensures ColumnPass(t, i, focused) ==
            if NonBlank(t, focused) == [] then [t[|t| - 1]] else NonBlank(t, focused)
  {
    NonBlankRemoveBlank(t, i, focused);
    if i > 0 {
      assert NonBlank(t, focused) != [] by {
        assert NonBlank(t, focused)[0] == t[0];
      }
    } else {
      assert RemoveAt(t, i)[|t| - 2] == t[|t| - 1];
    }
  }

  /** Removing a blank line does not change the filtered lines. */
  lemma NonBlankRemoveBlank<T>(t: seq<seq<T>>, i: nat, focused: set<T>)
    requires i < |t| && Blank(t[i], focused)
    ensures NonBlank(RemoveAt(t, i), focused) == NonBlank(t, focused)
  {
    assert t == t[..i] + [t[i]] + t[i + 1..];
    NonBlankAppend(t[..i] + [t[i]], t[i + 1..], focused);
    NonBlankAppend(t[..i], [t[i]], focused);
    NonBlankAppend(t[..i], t[i + 1..], focused);
    assert NonBlank([t[i]], focused) == [] by {
      assert [t[i]][1..] == [];
    }
  }

  /**
   * After the column sweep at least one column is left, at most as many as
   * before, and either exactly one is left or none of them is blank.
   */
  lemma ColumnPassOutcome<T>(t: seq<seq<T>>, focused: set<T>)
    requires 1 <= |t|
    ensures 1 <= |ColumnPass(t, 0, focused)| <= |t|
    ensures |ColumnPass(t, 0, focused)| == 1 ||
            forall c :: 0 <= c < |ColumnPass(t, 0, focused)| ==> !Blank(ColumnPass(t, 0, focused)[c], focused)
  {
    ColumnPassIsFilter(t, 0, focused);
    NonBlankMembers(t, focused);
    NonBlankLength(t, focused);
  }

  lemma {:induction false} NonBlankLength<T>(t: seq<seq<T>>, focused: set<T>)
    ensures |NonBlank(t, focused)| <= |t|
  {
    if t != [] {
      NonBlankLength(t[1..], focused);
    }
  }

  /** The column sweep never drops a focused cell: it stays in some column. */
  lemma {:induction false} ColumnPassKeepsFocused<T>(t: seq<seq<T>>, i: nat, focused: set<T>, c: nat, r: nat)
    requires c < |t| && r < |t[c]| && t[c][r] in focused
    ensures exists k :: 0 <= k < |ColumnPass(t, i, focused)| && t[c] == ColumnPass(t, i, focused)[k]
    decreases |t|, |t| - i
  {
    if |t| <= 1 || i >= |t| {
      assert t[c] == ColumnPass(t, i, focused)[c];
    } else if Blank(t[i], focused) {
      assert t[c][r] in t[c];
      assert c != i;
      var t' := RemoveAt(t, i);
      var c' := if c < i then c else c - 1;
      assert t'[c'] == t[c];
      assert ColumnPass(t, i, focused) == ColumnPass(t', i, focused);
      ColumnPassKeepsFocused(t', i, focused, c', r);
    } else {
      assert ColumnPass(t, i, focused) == ColumnPass(t, i + 1, focused);
      ColumnPassKeepsFocused(t, i + 1, focused, c, r);
    }
  }

  /** Transposing a rectangular grid with at least one column twice gives it back. */
  lemma TransposeTwice<T>(t: seq<seq<T>>, rows: nat)
    requires IsRect(t, rows)
    ensures Transpose(Transpose(t, rows), |t|) == t
  {
    var tt := Transpose(Transpose(t, rows), |t|);
    assert |tt| == |t|;
    forall c | 0 <= c < |t| ensures tt[c] == t[c] {
      assert |tt[c]| == rows;
    }
  }

  /** Removing row `j` of `t` is removing column `j` of its transpose. */
  lemma TransposeRemoveRow<T>(t: seq<seq<T>>, rows: nat, j: nat)
    requires IsRect(t, rows) && j < rows
    ensures IsRect(RemoveRow(t, j), rows - 1)
    ensures Transpose(RemoveRow(t, j), rows - 1) == RemoveAt(Transpose(t, rows), j)
  {
    var a := Transpose(RemoveRow(t, j), rows - 1);
    var b := RemoveAt(Transpose(t, rows), j);
    assert |a| == |b|;
    forall k | 0 <= k < rows - 1 ensures a[k] == b[k] {
      assert |a[k]| == |b[k]| == |t|;
    }
  }

  /** The row sweep is the column sweep run over the rows. */
  lemma {:induction false} RowPassIsTransposedColumnPass<T>(t: seq<seq<T>>, j: nat, focused: set<T>)
    requires |t| >= 1 && IsRect(t, |t[0]|)
    ensures IsRect(ColumnPass(Transpose(t, |t[0]|), j, focused), |t|)
    ensures RowPass(t, j, focused) == Transpose(ColumnPass(Transpose(t, |t[0]|), j, focused), |t|)
    decreases |t[0]|, |t[0]| - j
  {
    var h := |t[0]|;
    var tt := Transpose(t, h);
    if h <= 1 || j >= h {
      TransposeTwice(t, h);
    } else {
      assert tt[j] == RowOf(t, j);
      if Blank(RowOf(t, j), focused) {
        var t' := RemoveRow(t, j);
        TransposeRemoveRow(t, h, j);
        assert |t'[0]| == h - 1;
        RowPassIsTransposedColumnPass(t', j, focused);
      } else {
        RowPassIsTransposedColumnPass(t, j + 1, focused);
      }
    }
  }

  /** The row sweep keeps every focused cell in its own column. */
  lemma {:induction false} RowPassKeepsFocused<T>(t: seq<seq<T>>, j: nat, focused: set<T>, c: nat, x: T)
    requires |t| >= 1 && IsRect(t, |t[0]|)
    requires c < |t| && x in t[c] && x in focused
    ensures |RowPass(t, j, focused)| == |t| && x in RowPass(t, j, focused)[c]
    decreases |t[0]|, |t[0]| - j
  {
    var h := |t[0]|;
    if h <= 1 || j >= h {
    } else if Blank(RowOf(t, j), focused) {
      var t' := RemoveRow(t, j);
      var r :| 0 <= r < h && t[c][r] == x;
      assert r != j by {
        assert RowOf(t, j)[c] == t[c][j];
      }
      var r' := if r < j then r else r - 1;
      assert t'[c][r'] == x;
      RowPassKeepsFocused(t', j, focused, c, x);
    } else {
      RowPassKeepsFocused(t, j + 1, focused, c, x);
    }
  }

  /**
   * After the row sweep: the grid keeps its columns, has between one row and
   * its old number of rows, and either one row is left or no row is blank.
   */
  lemma RowPassOutcome<T>(t: seq<seq<T>>, focused: set<T>)
    requires |t| >= 1 && 1 <= |t[0]| && IsRect(t, |t[0]|)
    ensures |RowPass(t, 0, focused)| == |t|
    ensures 1 <= |RowPass(t, 0, focused)[0]| <= |t[0]|
    ensures IsRect(RowPass(t, 0, focused), |RowPass(t, 0, focused)[0]|)
    ensures |RowPass(t, 0, focused)[0]| == 1 ||
            forall j :: 0 <= j < |RowPass(t, 0, focused)[0]| ==>
              !Blank(RowOf(RowPass(t, 0, focused), j), focused)
  {
    var h := |t[0]|;
    var tt := Transpose(t, h);
    RowPassIsTransposedColumnPass(t, 0, focused);
    ColumnPassOutcome(tt, focused);
    var p := ColumnPass(tt, 0, focused);
    var r := RowPass(t, 0, focused);
    assert r == Transpose(p, |t|);
    forall j | 0 <= j < |p| ensures RowOf(r, j) == p[j] {
      assert |RowOf(r, j)| == |p[j]|;
    }
  }

  /** The row sweep keeps every column that had a focused cell non-blank. */
  lemma RowPassKeepsLiveColumns<T>(t: seq<seq<T>>, focused: set<T>)
    requires |t| >= 1 && 1 <= |t[0]| && IsRect(t, |t[0]|)
    ensures |RowPass(t, 0, focused)| == |t|
    ensures forall c :: 0 <= c < |t| && !Blank(t[c], focused) ==> !Blank(RowPass(t, 0, focused)[c], focused)
  {
    RowPassOutcome(t, focused);
    forall c | 0 <= c < |t| && !Blank(t[c], focused) ensures !Blank(RowPass(t, 0, focused)[c], focused) {
      var x :| x in t[c] && x in focused;
      RowPassKeepsFocused(t, 0, focused, c, x);
    }
  }

  /**
   * Round trip of expand_table_cols and the column sweep: a blank column
   * appended to a grid without blank columns is the only one removed.
   */
  lemma ColumnPassDropsAppendedBlank<T>(t: seq<seq<T>>, col: seq<T>, focused: set<T>)
    requires |t| >= 1 && forall c :: 0 <= c < |t| ==> !Blank(t[c], focused)
    requires Blank(col, focused)
    ensures ColumnPass(t + [col], 0, focused) == t
  {
    ColumnPassIsFilter(t + [col], 0, focused);
    NonBlankAppend(t, [col], focused);
    NonBlankMembers(t, focused);
    assert [col][1..] == [];
  }

  /** The row sweep leaves a grid alone when none of its rows is blank. */
  lemma RowPassKeepsFullRows<T>(t: seq<seq<T>>, focused: set<T>)
    requires |t| >= 1 && 1 <= |t[0]| && IsRect(t, |t[0]|)
    requires forall j :: 0 <= j < |t[0]| ==> !Blank(RowOf(t, j), focused)
    ensures RowPass(t, 0, focused) == t
  {
    var h := |t[0]|;
    var tt := Transpose(t, h);
    RowPassIsTransposedColumnPass(t, 0, focused);
    forall j | 0 <= j < h ensures !Blank(tt[j], focused) {
      assert tt[j] == RowOf(t, j);
    }
    ColumnPassIsFilter(tt, 0, focused);
    NonBlankMembers(tt, focused);
    TransposeTwice(t, h);
  }

  /**
   * Round trip of expand_table_cols and cleanup_table: on a grid with no
   * blank column and no blank row, adding a blank column and compacting
   * gives back the grid.
   */
  lemma CompactedUndoesAppendedBlank<T>(t: seq<seq<T>>, col: seq<T>, focused: set<T>)
    requires |t| >= 1 && 1 <= |t[0]| && IsRect(t, |t[0]|) && |col| == |t[0]|
    requires forall c :: 0 <= c < |t| ==> !Blank(t[c], focused)
    requires forall j :: 0 <= j < |t[0]| ==> !Blank(RowOf(t, j), focused)
    requires Blank(col, focused)
    ensures IsRect(t + [col], |t[0]|) && Compacted(t + [col], focused) == t
  {
    assert (t + [col])[0] == t[0];
    ColumnPassDropsAppendedBlank(t, col, focused);
    RowPassKeepsFullRows(t, focused);
  }

  // ---------------------------------------------------------------------------
  // Span repair (fix_colrowspan)
  // ---------------------------------------------------------------------------

  /**
   * A span of `span` cells starting at index `base` of a line is blocked when its
   * far cell `base + span - 1` is outside the line or holds a focused client.
   */
  predicate Blocked<T(==)>(line: seq<T>, focused: set<T>, base: int, span: int) {
    !(0 <= base + span - 1 < |line|) || line[base + span - 1] in focused
  }

  /**
   * Only the far cell of a span is tested: a focused cell strictly inside
   * the span does not make it shrink.
   */
  lemma ShrinkTestsFarCellOnly()
    ensures Shrink([10, 11, 12], {11}, 0, 3) == 3
    ensures Shrink([10, 11, 12], {12}, 0, 3) == 2
  {
  }

  /** The decrement-while loop of fix_colrowspan: shrink while longer than 1 and blocked. */
  function Shrink<T(==)>(line: seq<T>, focused: set<T>, base: int, span: int): (r: int)
    ensures r <= span
    ensures span >= 1 ==> r >= 1
    ensures span > 1 ==> r == 1 || !Blocked(line, focused, base, r)
    decreases span
  {
    if span > 1 && Blocked(line, focused, base, span) then Shrink(line, focused, base, span - 1) else span
  }

  /** The shrink is greedy: every longer span up to the original one was blocked. */
  lemma {:induction false} ShrinkIsLongestFree<T>(line: seq<T>, focused: set<T>, base: int, span: int)
    ensures forall s :: Shrink(line, focused, base, span) < s <= span ==> Blocked(line, focused, base, s)
    decreases span
  {
    if span > 1 && Blocked(line, focused, base, span) {
      ShrinkIsLongestFree(line, focused, base, span - 1);
    }
  }

  /** A span that already fits is kept as it is, so shrinking twice is shrinking once. */
  lemma ShrinkIdempotent<T>(line: seq<T>, focused: set<T>, base: int, span: int)
    ensures span <= 1 || !Blocked(line, focused, base, span) ==> Shrink(line, focused, base, span) == span
    ensures Shrink(line, focused, base, Shrink(line, focused, base, span)) == Shrink(line, focused, base, span)
  {
  }

  /** Both spans of the cell at (c, r) of `t` fit: each is one cell long or not blocked. */
  predicate SpansFitAt<T(==)>(t: seq<seq<T>>, focused: set<T>, c: nat, r: nat, colspan: int, rowspan: int)
    requires c < |t| && forall k :: 0 <= k < |t| ==> r < |t[k]|
  {
    (colspan == 1 || !Blocked(RowOf(t, r), focused, c, colspan)) &&
    (rowspan == 1 || !Blocked(t[c], focused, r, rowspan))
  }

  /**
   * Shrinking both spans of a cell makes them fit and keeps them at least one
   * cell long, and spans that already fit are kept.
   */
  lemma ShrinkFits<T>(t: seq<seq<T>>, focused: set<T>, c: nat, r: nat, colspan: int, rowspan: int)
    requires c < |t| && (forall k :: 0 <= k < |t| ==> r < |t[k]|) && colspan >= 1 && rowspan >= 1
    ensures Shrink(RowOf(t, r), focused, c, colspan) >= 1 && Shrink(t[c], focused, r, rowspan) >= 1
    ensures SpansFitAt(t, focused, c, r, Shrink(RowOf(t, r), focused, c, colspan), Shrink(t[c], focused, r, rowspan))
    ensures SpansFitAt(t, focused, c, r, colspan, rowspan) ==>
              Shrink(RowOf(t, r), focused, c, colspan) == colspan && Shrink(t[c], focused, r, rowspan) == rowspan
  {
    ShrinkIdempotent(RowOf(t, r), focused, c, colspan);
    ShrinkIdempotent(t[c], focused, r, rowspan);
  }

  // ---------------------------------------------------------------------------
  // Width redistribution (free_container)
  // ---------------------------------------------------------------------------

  /**
   * The column that receives a freed cell's width: the left neighbour if there
   * is one, else the right one if there is one, else none.
   */
  function Neighbour(col: int, cols: int): (r: Option<int>)
    requires 0 <= col < cols
    ensures r.Some? ==> 0 <= r.value < cols && (r.value == col - 1 || r.value == col + 1)
    ensures r.None? <==> cols == 1
    ensures col > 0 ==> r == Some(col - 1)
  {
    if col > 0 then Some(col - 1)
    else if col + 1 < cols then Some(col + 1)
    else None
  }

  /**
   * The equal share of the width each of `cols` columns gets by default,
   * `(width / cols) / width`, computed exactly.
   */
  function DefaultShare(cols: nat): (r: real)
    requires cols >= 1
    ensures 0.0 < r <= 1.0 && r * cols as real == 1.0
  {
    1.0 / cols as real
  }

  /**
   * The width factor of a receiving cell that had `factor` and is given
   * `freed`: a factor of zero is first replaced by the default share.
   */
  function Credit(factor: real, freed: real, cols: nat): (r: real)
    requires cols >= 1
    ensures factor == 0.0 ==> r == DefaultShare(cols) + freed
    ensures factor != 0.0 ==> r == factor + freed
    ensures factor >= 0.0 && freed > 0.0 ==> r > factor
  {
    (if factor == 0.0 then DefaultShare(cols) else factor) + freed
  }

  /**
   * The factor of a receiving cell after a cell with factor `freed` was freed:
   * credited when `freed` is positive, kept otherwise.
   */
  function AfterFree(factor: real, freed: real, cols: nat): (r: real)
    requires cols >= 1
    ensures freed > 0.0 ==> r == Credit(factor, freed, cols)
    ensures freed <= 0.0 ==> r == factor
    ensures r >= factor
  {
    if freed > 0.0 then Credit(factor, freed, cols) else factor
  }
}
