/**
 * The layout table of i3's table.c: per workspace a column-major grid
 * `table[col][row]` of containers, grown and shrunk in place, compacted when
 * whole rows or columns hold no focused client, and with spans repaired so
 * that they end on a cell that exists and is free.
 */
module Table {
  import opened Grid

  /** A container's layout mode (MODE_DEFAULT is the all-zero value). */
  datatype Mode = Default | Stack

  /** Calls into code outside this file, in the order they are made. */
  datatype Event =
    /** A call to leave_stack_mode for the container, made before it is freed. */
    | LeaveStackMode(con: Container)
    /** The container's storage being released. */
    | Free(con: Container)
    /** A call to set_focus on the container's focused client. */
    | SetFocus(con: Container)

  /** One cell of a workspace's table. `focused` stands for `currently_focused != NULL`. */
  class Container {
    var workspace: Workspace
    var col: int
    var row: int
    var colspan: int
    var rowspan: int
    var focused: bool
    var widthFactor: real
    var mode: Mode

    /** new_container: a zeroed container at (col, row) with spans of 1. */
    constructor (workspace: Workspace, col: int, row: int)
      ensures this.workspace == workspace && this.col == col && this.row == row
      ensures Pristine()
    {
      this.workspace := workspace;
      this.col := col;
      this.row := row;
      colspan := 1;
      rowspan := 1;
      focused := false;
      widthFactor := 0.0;
      mode := Default;
    }

    /** The state new_container leaves a container in, apart from its place. */
    ghost predicate Pristine()
      reads this
    {
      colspan == 1 && rowspan == 1 && !focused && widthFactor == 0.0 && mode == Default
    }
  }

  /** The events free_container records for a container in mode `mode`. */
  ghost function FreeEvents(x: Container, mode: Mode): seq<Event> {
    (if mode == Stack then [LeaveStackMode(x)] else []) + [Free(x)]
  }

  /** The events of freeing the containers of `line` one after the other. */
  ghost function LineFreeEvents(line: seq<Container>): seq<Event>
    reads (set x | x in line)`mode
  {
    if line == [] then [] else LineFreeEvents(line[..|line| - 1]) + FreeEvents(line[|line| - 1], line[|line| - 1].mode)
  }

  /**
   * The inner shift loop of expand_table_rows_at_head, for one column: slot q
   * takes the container of slot q - 1, whose row becomes q.
   */
  method ShiftDown(column: seq<Container?>, ghost cells: seq<Container>) returns (shifted: seq<Container?>)
    requires |column| == |cells| + 1 && column[..|cells|] == cells
    requires forall q :: 0 <= q < |cells| ==> cells[q].row == q
    modifies cells`row
    ensures |shifted| == |column|
    ensures forall q :: 0 <= q < |cells| ==> shifted[q + 1] == cells[q] && cells[q].row == q + 1
  {
    shifted := column;
    var r := |column| - 1;
    while r > 0
      invariant 0 <= r < |column|
      invariant |shifted| == |column|
      invariant forall q :: 0 <= q <= r && q < |cells| ==> shifted[q] == cells[q]
      invariant forall q :: 0 <= q < r ==> cells[q].row == q
      invariant forall q :: r <= q < |cells| ==> shifted[q + 1] == cells[q] && cells[q].row == q + 1
    {
      var moved := shifted[r - 1];
      assert moved.row == r - 1;
      assert forall q :: r <= q < |cells| ==> cells[q] != moved;
      shifted := shifted[r := moved];
      moved.row := r;
      r := r - 1;
    }
  }

  /** The realloc loop of expand_table_rows_at_head: one unset slot more in every column. */
  method GrowColumns(t: seq<seq<Container>>) returns (slots: seq<seq<Container?>>)
    ensures |slots| == |t|
    ensures forall k :: 0 <= k < |t| ==> slots[k] == t[k] + [null]
  {
    slots := t;
    for c := 0 to |t|
      invariant |slots| == |t|
      invariant forall k :: 0 <= k < c ==> slots[k] == t[k] + [null]
      invariant forall k :: c <= k < |t| ==> slots[k] == t[k]
    {
      slots := slots[c := slots[c] + [null]];
    }
  }

  /** The shift loops of expand_table_rows_at_head: every column moves down by one. */
  method ShiftRowsDown(slots: seq<seq<Container?>>, ghost t: seq<seq<Container>>) returns (shifted: seq<seq<Container?>>)
    requires |slots| == |t|
    requires forall k :: 0 <= k < |t| ==> slots[k] == t[k] + [null]
    requires forall k, r :: 0 <= k < |t| && 0 <= r < |t[k]| ==> t[k][r].col == k && t[k][r].row == r
    modifies set k, r | 0 <= k < |t| && 0 <= r < |t[k]| :: t[k][r]`row
    ensures |shifted| == |t|
    ensures forall k :: 0 <= k < |t| ==> |shifted[k]| == |t[k]| + 1 && shifted[k][1..] == t[k]
    ensures forall k, r :: 0 <= k < |t| && 0 <= r < |t[k]| ==> t[k][r].row == r + 1
  {
    shifted := slots;
    for c := 0 to |slots|
      invariant |shifted| == |t|
      invariant forall k :: 0 <= k < c ==> |shifted[k]| == |t[k]| + 1 && shifted[k][1..] == t[k]
      invariant forall k :: c <= k < |t| ==> shifted[k] == t[k] + [null]
      invariant forall k, r :: 0 <= k < c && 0 <= r < |t[k]| ==> t[k][r].row == r + 1
      invariant forall k, r :: c <= k < |t| && 0 <= r < |t[k]| ==> t[k][r].row == r
    {
      assert forall x :: x in t[c] ==> x.col == c;
      var column := ShiftDown(shifted[c], t[c]);
      assert column[1..] == t[c];
      shifted := shifted[c := column];
    }
  }

  /**
   * The inner shift loop of expand_table_cols_at_head, for row `r`: slot
   * (c, r) takes the container of slot (c - 1, r), whose column becomes c.
   */
  method ShiftRight(slots: seq<seq<Container?>>, ghost t: seq<seq<Container>>, rows: nat, r: nat)
    returns (shifted: seq<seq<Container?>>)
    requires r < rows && |slots| == |t| + 1
    requires forall k :: 0 <= k < |slots| ==> |slots[k]| == rows
    requires forall k :: 0 <= k < |t| ==> |t[k]| == rows && slots[k][r] == t[k][r] && t[k][r].col == k
    modifies set k | 0 <= k < |t| :: t[k][r]`col
    ensures |shifted| == |slots|
    ensures forall k :: 0 <= k < |slots| ==> |shifted[k]| == rows
    ensures forall k :: 0 <= k < |t| ==> shifted[k + 1][r] == t[k][r] && t[k][r].col == k + 1
    ensures forall k, q :: 0 <= k < |slots| && 0 <= q < rows && q != r ==> shifted[k][q] == slots[k][q]
  {
    shifted := slots;
    var c := |slots| - 1;
    while c > 0
      invariant 0 <= c < |slots|
      invariant |shifted| == |slots|
      invariant forall k :: 0 <= k < |slots| ==> |shifted[k]| == rows
      invariant forall k :: 0 <= k <= c && k < |t| ==> shifted[k][r] == t[k][r]
      invariant forall k :: 0 <= k < c ==> t[k][r].col == k
      invariant forall k :: c <= k < |t| ==> shifted[k + 1][r] == t[k][r] && t[k][r].col == k + 1
      invariant forall k, q :: 0 <= k < |slots| && 0 <= q < rows && q != r ==> shifted[k][q] == slots[k][q]
    {
      var moved := shifted[c - 1][r];
      assert moved.col == c - 1;
      assert forall k :: c <= k < |t| ==> t[k][r] != moved;
      shifted := shifted[c := shifted[c][r := moved]];
      moved.col := c;
      c := c - 1;
    }
  }

  /** The shift loops of expand_table_cols_at_head: every column moves right by one. */
  method ShiftColumnsRight(slots: seq<seq<Container?>>, ghost t: seq<seq<Container>>, rows: nat)
    returns (shifted: seq<seq<Container?>>)
    requires |slots| == |t| + 1
    requires forall k :: 0 <= k < |slots| ==> |slots[k]| == rows
    requires forall k :: 0 <= k < |t| ==> slots[k] == t[k]
    requires forall k, q :: 0 <= k < |t| && 0 <= q < rows ==> t[k][q].col == k && t[k][q].row == q
    modifies set k, q | 0 <= k < |t| && 0 <= q < |t[k]| :: t[k][q]`col
    ensures |shifted| == |slots|
    ensures forall k :: 0 <= k < |slots| ==> |shifted[k]| == rows
    ensures forall k :: 0 <= k < |t| ==> shifted[k + 1] == t[k]
    ensures forall k, q :: 0 <= k < |t| && 0 <= q < rows ==> t[k][q].col == k + 1
  {
    shifted := slots;
    for r := 0 to rows
      invariant |shifted| == |slots|
      invariant forall k :: 0 <= k < |slots| ==> |shifted[k]| == rows
      invariant forall k, q :: 0 <= k < |t| && 0 <= q < r ==> shifted[k + 1][q] == t[k][q] && t[k][q].col == k + 1
      invariant forall k, q :: 0 <= k < |t| && r <= q < rows ==> shifted[k][q] == t[k][q] && t[k][q].col == k
    {
      assert forall k, q :: 0 <= k < |t| && 0 <= q < rows && q != r ==> t[k][q] !in set k' | 0 <= k' < |t| :: t[k'][r];
      shifted := ShiftRight(shifted, t, rows, r);
    }
  }

  /**
   * One column of the shift loop of move_columns_from: slot q of `dst`
   * receives the container of slot q of `src`, which moves to column `c`.
   */
  method MoveLine(dst: seq<Container>, src: seq<Container>, c: int) returns (moved: seq<Container>)
    requires |dst| == |src|
    requires forall q :: 0 <= q < |src| ==> src[q].row == q
    modifies (set x | x in src)`row, (set x | x in src)`col
    ensures moved == src
    ensures forall q :: 0 <= q < |src| ==> src[q].row == q && src[q].col == c
  {
    moved := dst;
    for r := 0 to |src|
      invariant |moved| == |src| && moved[..r] == src[..r]
      invariant forall q :: 0 <= q < |src| ==> src[q].row == q
      invariant forall q :: 0 <= q < r ==> src[q].col == c
    {
      var moving := src[r];
      moved := moved[r := moving];
      moving.row := r;
      moving.col := c;
    }
    assert moved == moved[..|src|];
  }

  /** The containers held anywhere in the grid `t`. */
  ghost function Members(t: seq<seq<Container>>): set<Container> {
    set c, r | 0 <= c < |t| && 0 <= r < |t[c]| :: t[c][r]
  }

  /** Dropping a line of a grid keeps no container it did not hold. */
  lemma MembersRemoveAt(t: seq<seq<Container>>, i: nat)
    requires i < |t|
    ensures Members(RemoveAt(t, i)) <= Members(t)
  {
    var s := RemoveAt(t, i);
    forall x | x in Members(s) ensures x in Members(t) {
      var c, r :| 0 <= c < |s| && 0 <= r < |s[c]| && x == s[c][r];
      if c < i {
        assert x == t[c][r];
      } else {
        assert x == t[c + 1][r];
      }
    }
  }

  /** Dropping a row of a grid keeps no container it did not hold. */
  lemma MembersRemoveRow(t: seq<seq<Container>>, j: nat)
    requires forall c :: 0 <= c < |t| ==> j < |t[c]|
    ensures Members(RemoveRow(t, j)) <= Members(t)
  {
    var s := RemoveRow(t, j);
    forall x | x in Members(s) ensures x in Members(t) {
      var c, r :| 0 <= c < |s| && 0 <= r < |s[c]| && x == s[c][r];
      if r < j {
        assert x == t[c][r];
      } else {
        assert x == t[c][r + 1];
      }
    }
  }

  /** The column sweep keeps every focused container of the grid. */
  lemma MembersColumnPass(t: seq<seq<Container>>, focused: set<Container>)
    ensures forall x :: x in Members(t) && x in focused ==> x in Members(ColumnPass(t, 0, focused))
  {
    forall x | x in Members(t) && x in focused ensures x in Members(ColumnPass(t, 0, focused)) {
      var c, r :| 0 <= c < |t| && 0 <= r < |t[c]| && t[c][r] == x;
      ColumnPassKeepsFocused(t, 0, focused, c, r);
      var k :| 0 <= k < |ColumnPass(t, 0, focused)| && t[c] == ColumnPass(t, 0, focused)[k];
      assert ColumnPass(t, 0, focused)[k][r] == x;
    }
  }

  /** The row sweep keeps every focused container of the grid. */
  lemma MembersRowPass(t: seq<seq<Container>>, focused: set<Container>)
    requires |t| >= 1 && IsRect(t, |t[0]|)
    ensures forall x :: x in Members(t) && x in focused ==> x in Members(RowPass(t, 0, focused))
  {
    forall x | x in Members(t) && x in focused ensures x in Members(RowPass(t, 0, focused)) {
      var c, r :| 0 <= c < |t| && 0 <= r < |t[c]| && t[c][r] == x;
      assert x in t[c];
      RowPassKeepsFocused(t, 0, focused, c, x);
      var q :| 0 <= q < |RowPass(t, 0, focused)[c]| && RowPass(t, 0, focused)[c][q] == x;
    }
  }

  /**
   * One row of the shift loop of move_rows_from: in every column, slot r - 1
   * receives the container of slot r, whose row becomes r - 1.
   */
  method MoveRowUp(slots: seq<seq<Container>>, ghost rows: nat, r: nat) returns (moved: seq<seq<Container>>)
    requires IsRect(slots, rows) && 1 <= r < rows
    requires forall k :: 0 <= k < |slots| ==> slots[k][r].col == k && slots[k][r].row == r
    modifies (set k | 0 <= k < |slots| :: slots[k][r])`row, (set k | 0 <= k < |slots| :: slots[k][r])`col
    ensures |moved| == |slots|
    ensures forall k :: 0 <= k < |slots| ==> moved[k] == slots[k][r - 1 := slots[k][r]]
    ensures forall k :: 0 <= k < |slots| ==> slots[k][r].row == r - 1 && slots[k][r].col == k
    ensures forall x: Container :: old(allocated(x)) && old(x.row) != r ==> x.row == old(x.row) && x.col == old(x.col)
  {
    moved := slots;
    for c := 0 to |slots|
      invariant |moved| == |slots|
      invariant forall k :: 0 <= k < c ==> moved[k] == slots[k][r - 1 := slots[k][r]]
      invariant forall k :: c <= k < |slots| ==> moved[k] == slots[k]
      invariant forall k :: 0 <= k < c ==> slots[k][r].row == r - 1
      invariant forall k :: c <= k < |slots| ==> slots[k][r].row == r
      invariant forall k :: 0 <= k < |slots| ==> slots[k][r].col == k
      invariant forall x: Container :: old(allocated(x)) && old(x.row) != r ==> x.row == old(x.row) && x.col == old(x.col)
    {
      var moving := moved[c][r];
      moved := moved[c := moved[c][r - 1 := moving]];
      moving.row := r - 1;
      moving.col := c;
    }
  }

  /** The crediting step of free_container for the receiving container `dest`. */
  method Receive(dest: Container, freed: real, cols: nat)
    requires cols >= 1
    modifies dest`widthFactor
    ensures dest.widthFactor == Credit(old(dest.widthFactor), freed, cols)
  {
    if dest.widthFactor == 0.0 {
      dest.widthFactor := DefaultShare(cols);
    }
    dest.widthFactor := dest.widthFactor + freed;
  }

  class Workspace {
    var num: int
    var cols: int
    var rows: int
    var currentCol: int
    var currentRow: int
    var table: seq<seq<Container>>
    /** The calls this workspace's containers were handed to, oldest first. */
    ghost var events: seq<Event>

    /** A workspace in zeroed static storage. */
    constructor ()
      ensures Zeroed() && events == []
    {
      num, cols, rows, currentCol, currentRow := 0, 0, 0, 0, 0;
      table := [];
      events := [];
    }

    ghost predicate Zeroed()
      reads this
    {
      num == 0 && cols == 0 && rows == 0 && currentCol == 0 && currentRow == 0 && table == []
    }

    /** The memset of init_table, for one workspace. */
    method Zero()
      modifies this
      ensures Zeroed() && events == old(events)
    {
      num, cols, rows, currentCol, currentRow := 0, 0, 0, 0, 0;
      table := [];
    }

    /** Every container the table points to. */
    ghost function Cells(): set<Container>
      reads this`table
    {
      Members(table)
    }

    /** A container's fields agree with the slot (c, r) holding it. */
    ghost predicate Placed(x: Container, c: int, r: int)
      reads x`col, x`row, x`workspace, x`colspan, x`rowspan
    {
      x.col == c && x.row == r && x.workspace == this && x.colspan >= 1 && x.rowspan >= 1
    }

    /**
     * The table is `cols` columns of `rows` slots each, and every container
     * knows its own slot. (A table that is still 0 x 0 or 1 x 0 qualifies.)
     */
    ghost predicate WellFormed()
      reads this`table, this`cols, this`rows, Cells()`col, Cells()`row, Cells()`workspace, Cells()`colspan, Cells()`rowspan
    {
      |table| == cols && 0 <= rows &&
      (forall c :: 0 <= c < cols ==> |table[c]| == rows) &&
      (forall c, r :: 0 <= c < cols && 0 <= r < rows ==> Placed(table[c][r], c, r))
    }

    /** WellFormed, at least one line each way, and the cursor on a cell. */
    ghost predicate Valid()
      reads this, Cells()
    {
      WellFormed() && cols >= 1 && rows >= 1 &&
      0 <= currentCol < cols && 0 <= currentRow < rows
    }

    /** The containers with a focused client. */
    ghost function FocusedCells(): set<Container>
      reads this`table, Cells()`focused
    {
      set x | x in Cells() && x.focused
    }

    /** No two slots of a well-formed table hold the same container. */
    lemma NoAliasing(c1: int, r1: int, c2: int, r2: int)
      requires WellFormed()
      requires 0 <= c1 < cols && 0 <= r1 < rows && 0 <= c2 < cols && 0 <= r2 < rows
      ensures table[c1][r1] == table[c2][r2] ==> c1 == c2 && r1 == r2
    {
    }

    /** Every container of a well-formed table belongs to this workspace. */
    lemma CellsOwned()
      requires WellFormed()
      ensures forall x :: x in Cells() ==> x.workspace == this
    {
    }

    /** The state init_table leaves a workspace in: one 1 x 1 table holding a pristine container. */
    ghost predicate Initial()
      reads this, Cells()
    {
      WellFormed() && cols == 1 && rows == 1 && currentCol == 0 && currentRow == 0 && table[0][0].Pristine()
    }

    // -------------------------------------------------------------------------
    // Growth
    // -------------------------------------------------------------------------

    /** One iteration of init_table's loop: number the zeroed workspace and give it one cell. */
    method Setup(i: int)
      requires Zeroed()
      modifies this
      ensures num == i && Initial() && fresh(table[0][0])
      ensures events == old(events)
    {
      num := i;
      ExpandTableCols();
      ExpandTableRows();
    }


    /** expand_table_rows: one fresh row at the bottom. */
    method ExpandTableRows()
      requires WellFormed()
      modifies this
      ensures WellFormed()
      ensures cols == old(cols) && rows == old(rows) + 1
      ensures forall c :: 0 <= c < cols ==> table[c][..old(rows)] == old(table[c])
      ensures forall c :: 0 <= c < cols ==> fresh(table[c][old(rows)]) && table[c][old(rows)].Pristine()
      ensures num == old(num) && currentCol == old(currentCol) && currentRow == old(currentRow)
      ensures events == old(events)
      ensures old(Valid()) ==> Valid()
    {
      rows := rows + 1;
      for c := 0 to cols
        modifies this`table
        invariant |table| == cols
        invariant forall k :: 0 <= k < c ==> |table[k]| == rows && table[k][..rows - 1] == old(table[k])
        invariant forall k :: 0 <= k < c ==> fresh(table[k][rows - 1]) && table[k][rows - 1].Pristine()
        invariant forall k :: 0 <= k < c ==> Placed(table[k][rows - 1], k, rows - 1)
        invariant forall k :: c <= k < cols ==> table[k] == old(table[k])
      {
        var con := new Container(this, c, rows - 1);
        table := table[c := table[c] + [con]];
      }
      forall c, r | 0 <= c < cols && 0 <= r < rows ensures Placed(table[c][r], c, r) {
        if r < rows - 1 {
          assert table[c][r] == old(table[c])[r];
        }
      }
    }

    /** expand_table_cols: one fresh column at the right. */
    method ExpandTableCols()
      requires WellFormed()
      modifies this
      ensures WellFormed()
      ensures cols == old(cols) + 1 && rows == old(rows)
      ensures table[..old(cols)] == old(table)
      ensures forall r :: 0 <= r < rows ==> fresh(table[old(cols)][r]) && table[old(cols)][r].Pristine()
      ensures num == old(num) && currentCol == old(currentCol) && currentRow == old(currentRow)
      ensures events == old(events)
      ensures old(Valid()) ==> Valid()
    {
      cols := cols + 1;
      var column: seq<Container?> := seq(rows, _ => null);
      for r := 0 to rows
        modifies {}
        invariant |column| == rows
        invariant forall k :: 0 <= k < r ==>
                    column[k] != null && fresh(column[k]) && column[k].Pristine() && Placed(column[k], cols - 1, k)
      {
        var con := new Container(this, cols - 1, r);
        column := column[r := con];
      }
      table := table + [column];
      forall c, r | 0 <= c < cols && 0 <= r < rows ensures Placed(table[c][r], c, r) {
        if c < cols - 1 {
          assert table[c] == old(table)[c];
        }
      }
    }

    /** The new_container loop of expand_table_rows_at_head: slot 0 of every column gets a fresh container. */
    method NewHeadRow(slots: seq<seq<Container?>>) returns (filled: seq<seq<Container?>>)
      requires forall k :: 0 <= k < |slots| ==> |slots[k]| >= 1
      ensures |filled| == |slots|
      ensures forall k :: 0 <= k < |slots| ==> |filled[k]| == |slots[k]| && filled[k][1..] == slots[k][1..]
      ensures forall k :: 0 <= k < |slots| ==>
                filled[k][0] != null && fresh(filled[k][0]) && filled[k][0].Pristine() && Placed(filled[k][0], k, 0)
    {
      filled := slots;
      for c := 0 to |slots|
        invariant |filled| == |slots|
        invariant forall k :: 0 <= k < |slots| ==> |filled[k]| == |slots[k]| && filled[k][1..] == slots[k][1..]
        invariant forall k :: 0 <= k < c ==>
                    filled[k][0] != null && fresh(filled[k][0]) && filled[k][0].Pristine() && Placed(filled[k][0], k, 0)
      {
        var con := new Container(this, c, 0);
        filled := filled[c := filled[c][0 := con]];
        assert filled[c][1..] == slots[c][1..];
      }
    }

    /** expand_table_rows_at_head: every row moves down by one; a fresh row 0. */
    method ExpandTableRowsAtHead()
      requires WellFormed()
      modifies this, Cells()`row
      ensures WellFormed()
      ensures cols == old(cols) && rows == old(rows) + 1
      ensures forall c :: 0 <= c < cols ==> table[c][1..] == old(table[c])
      ensures forall c :: 0 <= c < cols ==> fresh(table[c][0]) && table[c][0].Pristine()
      ensures num == old(num) && currentCol == old(currentCol) && currentRow == old(currentRow)
      ensures events == old(events)
      ensures old(Valid()) ==> Valid()
    {
      ghost var t: seq<seq<Container>> := table;
      rows := rows + 1;
      var slots := GrowColumns(table);
      // every column shifts down one slot, freeing slot 0
      slots := ShiftRowsDown(slots, t);
      slots := NewHeadRow(slots);
      table := slots;
      forall c, r | 0 <= c < cols && 0 <= r < rows ensures Placed(table[c][r], c, r) {
        if r > 0 {
          assert table[c][r] == t[c][r - 1];
        }
      }
      assert WellFormed();
    }
    /** The new_container loop of expand_table_cols_at_head: column 0 gets fresh containers. */
    method NewHeadColumn(slots: seq<seq<Container?>>) returns (filled: seq<seq<Container?>>)
      requires |slots| >= 1
      ensures |filled| == |slots| && filled[1..] == slots[1..] && |filled[0]| == |slots[0]|
      ensures forall r :: 0 <= r < |slots[0]| ==>
                filled[0][r] != null && fresh(filled[0][r]) && filled[0][r].Pristine() && Placed(filled[0][r], 0, r)
    {
      var column := slots[0];
      for r := 0 to |column|
        invariant |column| == |slots[0]|
        invariant forall q :: 0 <= q < r ==>
                    column[q] != null && fresh(column[q]) && column[q].Pristine() && Placed(column[q], 0, q)
      {
        var con := new Container(this, 0, r);
        column := column[r := con];
      }
      filled := slots[0 := column];
    }

    /** expand_table_cols_at_head: every column moves right by one; a fresh column 0. */
    method ExpandTableColsAtHead()
      requires WellFormed()
      modifies this, Cells()`col
      ensures WellFormed()
      ensures cols == old(cols) + 1 && rows == old(rows)
      ensures table[1..] == old(table)
      ensures forall r :: 0 <= r < rows ==> fresh(table[0][r]) && table[0][r].Pristine()
      ensures num == old(num) && currentCol == old(currentCol) && currentRow == old(currentRow)
      ensures events == old(events)
      ensures old(Valid()) ==> Valid()
    {
      ghost var t: seq<seq<Container>> := table;
      cols := cols + 1;
      var slots: seq<seq<Container?>> := table + [seq(rows, _ => null)];
      // every column shifts one place to the right, freeing column 0
      slots := ShiftColumnsRight(slots, t, rows);
      slots := NewHeadColumn(slots);
      forall c, r | 0 <= c < |slots| && 0 <= r < |slots[c]| ensures slots[c][r] != null {
        if c > 0 {
          assert slots[c] == t[c - 1];
        }
      }
      table := slots;
      forall c, r | 0 <= c < cols && 0 <= r < rows ensures Placed(table[c][r], c, r) {
        if c > 0 {
          assert table[c][r] == t[c - 1][r];
        }
      }
      assert WellFormed();
    }

    // -------------------------------------------------------------------------
    // Removal
    // -------------------------------------------------------------------------

    /** The container free_container(col, row) credits a positive factor to, if any. */
    ghost function Receivers(col: int, row: int): set<Container>
      reads this`table, this`cols
      requires 0 <= col < cols == |table| && 0 <= row && forall k :: 0 <= k < cols ==> row < |table[k]|
    {
      match Neighbour(col, cols)
      case Some(d) => {table[d][row]}
      case None => {}
    }

    /** The containers the free_container loop over column `c` credits, if any. */
    ghost function NeighbourLine(c: int): set<Container>
      reads this`table, this`cols
      requires 0 <= c < cols == |table|
    {
      match Neighbour(c, cols)
      case Some(d) => set x | x in table[d]
      case None => {}
    }

    /**
     * free_container: a cell in stack mode leaves it first; a positive width
     * factor goes to the left neighbour, else to the right one, else is lost;
     * then the container is freed.
     */
    method FreeContainer(col: int, row: int)
      requires WellFormed() && 0 <= col < cols && 0 <= row < rows
      modifies this`events, Receivers(col, row)`widthFactor
      ensures events == old(events) + FreeEvents(table[col][row], table[col][row].mode)
      ensures forall d :: d in Receivers(col, row) ==>
                d.widthFactor == AfterFree(old(d.widthFactor), old(table[col][row].widthFactor), cols)
    {
      var freed := table[col][row];
      if freed.mode == Stack {
        events := events + [LeaveStackMode(freed)];
      }
      // The freed width goes to a neighbour
      if freed.widthFactor > 0.0 {
        var dest := Neighbour(col, cols);
        if dest.Some? {
          Receive(table[dest.value][row], freed.widthFactor, cols);
        }
      }
      events := events + [Free(freed)];
    }

    /** The free_container loop over column `c`, top to bottom (move_columns_from and cleanup_table). */
    method FreeColumn(c: int)
      requires WellFormed() && 0 <= c < cols
      modifies this`events, NeighbourLine(c)`widthFactor
      ensures events == old(events) + old(LineFreeEvents(table[c]))
      ensures forall x :: x in NeighbourLine(c) ==>
                x.widthFactor == AfterFree(old(x.widthFactor), old(table[c][x.row].widthFactor), cols)
    {
      assert forall x :: x in NeighbourLine(c) ==> 0 <= x.row < rows && x !in table[c];
      for r := 0 to rows
        invariant events == old(events) + old(LineFreeEvents(table[c][..r]))
        invariant forall x :: x in NeighbourLine(c) ==>
                    x.widthFactor == if x.row < r then AfterFree(old(x.widthFactor), old(table[c][x.row].widthFactor), cols)
                                     else old(x.widthFactor)
      {
        assert table[c][..r + 1][..r] == table[c][..r];
        assert old(LineFreeEvents(table[c][..r + 1])) == old(LineFreeEvents(table[c][..r]) + FreeEvents(table[c][r], table[c][r].mode));
        assert table[c][r].widthFactor == old(table[c][r].widthFactor);
        FreeContainer(c, r);
      }
      assert table[c][..rows] == table[c];
    }

    /** The shift loops of move_columns_from: columns from .. cols - 1 move one to the left. */
    method ShiftColumnsLeft(from: int)
      requires WellFormed() && 1 <= from <= cols
      modifies this`table, Cells()`col, Cells()`row
      ensures |table| == cols && forall k :: 0 <= k < cols ==> |table[k]| == rows
      ensures table[..cols - 1] == RemoveAt(old(table), from - 1)
      ensures table[cols - 1] == old(table)[cols - 1]
      ensures forall k, r :: 0 <= k < cols - 1 && 0 <= r < rows ==> Placed(table[k][r], k, r)
    {
      ghost var t: seq<seq<Container>> := table;
      for c := from to cols
        invariant |table| == cols && forall k :: 0 <= k < cols ==> |table[k]| == rows
        invariant forall k :: 0 <= k < from - 1 ==> table[k] == t[k]
        invariant forall k :: from <= k < c ==> table[k - 1] == t[k]
        invariant forall k :: c - 1 <= k < cols ==> table[k] == t[k]
        invariant forall k, r :: from <= k < c && 0 <= r < rows ==> t[k][r].col == k - 1 && t[k][r].row == r
        invariant forall k, r :: 0 <= k < cols && (k < from || c <= k) && 0 <= r < rows ==> t[k][r].col == k && t[k][r].row == r
      {
        var column := MoveLine(table[c - 1], table[c], c - 1);
        table := table[c - 1 := column];
      }
      forall k, r | 0 <= k < cols - 1 && 0 <= r < rows ensures Placed(table[k][r], k, r) {
        if k < from - 1 {
          assert table[k][r] == t[k][r];
        } else {
          assert table[k][r] == t[k + 1][r];
        }
      }
      assert table[..cols - 1] == RemoveAt(t, from - 1);
    }

    /** The containers of row `j`. */
    ghost function RowCells(j: int): set<Container>
      reads this`table
      requires 0 <= j && forall c :: 0 <= c < |table| ==> j < |table[c]|
    {
      set x | x in RowOf(table, j)
    }

    /** The free_container loop along row `j`, left to right (move_rows_from and cleanup_table). */
    method FreeRow(j: int)
      requires WellFormed() && 0 <= j < rows
      modifies this`events, RowCells(j)`widthFactor
      ensures events == old(events) + old(LineFreeEvents(RowOf(table, j)))
    {
      for c := 0 to cols
        invariant events == old(events) + old(LineFreeEvents(RowOf(table, j)[..c]))
      {
        assert RowOf(table, j)[..c + 1][..c] == RowOf(table, j)[..c];
        assert old(LineFreeEvents(RowOf(table, j)[..c + 1])) ==
               old(LineFreeEvents(RowOf(table, j)[..c]) + FreeEvents(table[c][j], table[c][j].mode));
        FreeContainer(c, j);
      }
      assert RowOf(table, j)[..cols] == RowOf(table, j);
    }

    /** The shift loops of move_rows_from: rows from .. rows - 1 move one up. */
    method ShiftRowsUp(from: int)
      requires WellFormed() && 1 <= from <= rows
      modifies this`table, Cells()`col, Cells()`row
      ensures |table| == cols && forall k :: 0 <= k < cols ==> |table[k]| == rows
      ensures forall k :: 0 <= k < cols ==> table[k][..rows - 1] == RemoveAt(old(table[k]), from - 1)
      ensures forall k :: 0 <= k < cols ==> table[k][rows - 1] == old(table[k][rows - 1])
      ensures forall k, r :: 0 <= k < cols && 0 <= r < rows - 1 ==> Placed(table[k][r], k, r)
    {
      ghost var t: seq<seq<Container>> := table;
      MoveRowsUp(from);
      forall k, r | 0 <= k < cols && 0 <= r < rows - 1 ensures Placed(table[k][r], k, r) {
        if r < from - 1 {
          assert table[k][r] == t[k][r];
        } else {
          assert table[k][r] == t[k][r + 1];
        }
      }
      forall k | 0 <= k < cols ensures table[k][..rows - 1] == RemoveAt(t[k], from - 1) {
        assert forall q :: 0 <= q < rows - 1 ==> table[k][q] == RemoveAt(t[k], from - 1)[q];
      }
    }

    /** The loops of ShiftRowsUp, slot by slot: slot q - 1 takes slot q's container for q >= from. */
    method MoveRowsUp(from: int)
      requires WellFormed() && 1 <= from <= rows
      modifies this`table, Cells()`col, Cells()`row
      ensures |table| == cols && IsRect(table, rows)
      ensures forall k, q :: 0 <= k < cols && 0 <= q < from - 1 ==> table[k][q] == old(table[k][q])
      ensures forall k, q :: 0 <= k < cols && from <= q < rows ==> table[k][q - 1] == old(table[k][q])
      ensures forall k :: 0 <= k < cols ==> table[k][rows - 1] == old(table[k][rows - 1])
      ensures forall k, q :: 0 <= k < cols && from <= q < rows ==> old(table[k][q]).col == k && old(table[k][q]).row == q - 1
      ensures forall k, q :: 0 <= k < cols && 0 <= q < from ==> old(table[k][q]).col == k && old(table[k][q]).row == q
    {
      ghost var t: seq<seq<Container>> := table;
      for r := from to rows
        invariant |table| == cols && IsRect(table, rows)
        invariant forall k, q :: 0 <= k < cols && 0 <= q < from - 1 ==> table[k][q] == t[k][q]
        invariant forall k, q :: 0 <= k < cols && from <= q < r ==> table[k][q - 1] == t[k][q]
        invariant forall k, q :: 0 <= k < cols && r - 1 <= q < rows ==> table[k][q] == t[k][q]
        invariant forall k, q :: 0 <= k < cols && from <= q < r ==> t[k][q].col == k && t[k][q].row == q - 1
        invariant forall k, q :: 0 <= k < cols && 0 <= q < from ==> t[k][q].col == k && t[k][q].row == q
        invariant forall k, q :: 0 <= k < cols && r <= q < rows ==> t[k][q].col == k && t[k][q].row == q
      {
        table := MoveRowUp(table, rows, r);
      }
    }

    /**
     * move_rows_from: frees row from - 1 and moves the rows below it one up;
     * the last row slot is left for shrink_table_rows.
     */
    method MoveRowsFrom(from: int)
      requires WellFormed() && 1 <= from <= rows
      modifies this`events, this`table, RowCells(from - 1)`widthFactor, Cells()`col, Cells()`row
      ensures |table| == cols && forall k :: 0 <= k < cols ==> |table[k]| == rows
      ensures forall k :: 0 <= k < cols ==> table[k][..rows - 1] == RemoveAt(old(table[k]), from - 1)
      ensures forall k :: 0 <= k < cols ==> table[k][rows - 1] == old(table[k][rows - 1])
      ensures forall k, r :: 0 <= k < cols && 0 <= r < rows - 1 ==> Placed(table[k][r], k, r)
      ensures events == old(events) + old(LineFreeEvents(RowOf(table, from - 1)))
    {
      FreeRow(from - 1);
      ShiftRowsUp(from);
    }

    /** shrink_table_cols: the last column slot is dropped. */
    method ShrinkTableCols()
      requires cols >= 1 && |table| == cols
      modifies this`cols, this`table
      ensures cols == old(cols) - 1 && table == old(table)[..cols]
    {
      cols := cols - 1;
      table := table[..cols];
    }

    /** shrink_table_rows: the last slot of every column is dropped. */
    method ShrinkTableRows()
      requires rows >= 1 && |table| == cols && forall c :: 0 <= c < cols ==> |table[c]| == rows
      modifies this`rows, this`table
      ensures rows == old(rows) - 1 && |table| == cols
      ensures forall c :: 0 <= c < cols ==> table[c] == old(table[c])[..rows]
    {
      rows := rows - 1;
      for c := 0 to cols
        modifies this`table
        invariant |table| == cols
        invariant forall k :: 0 <= k < c ==> table[k] == old(table[k])[..rows]
        invariant forall k :: c <= k < cols ==> table[k] == old(table[k])
      {
        table := table[c := table[c][..rows]];
      }
    }

    /**
     * move_columns_from: frees column from - 1 and moves the columns after it
     * one to the left; the last column slot is left for shrink_table_cols.
     */
    method MoveColumnsFrom(from: int)
      requires WellFormed() && 1 <= from <= cols
      modifies this`events, this`table, NeighbourLine(from - 1)`widthFactor, Cells()`col, Cells()`row
      ensures |table| == cols && forall k :: 0 <= k < cols ==> |table[k]| == rows
      ensures table[..cols - 1] == RemoveAt(old(table), from - 1)
      ensures table[cols - 1] == old(table)[cols - 1]
      ensures forall k, r :: 0 <= k < cols - 1 && 0 <= r < rows ==> Placed(table[k][r], k, r)
      ensures events == old(events) + old(LineFreeEvents(table[from - 1]))
      ensures forall x :: x in old(NeighbourLine(from - 1)) ==>
                x.widthFactor == AfterFree(old(x.widthFactor), old(table[from - 1][x.row].widthFactor), cols)
    {
      FreeColumn(from - 1);
      ShiftColumnsLeft(from);
    }

    // -------------------------------------------------------------------------
    // Compaction (cleanup_table)
    // -------------------------------------------------------------------------

    /** The inner scan of cleanup_table's column sweep: does column `c` hold no focused client? */
    method ColumnIsEmpty(c: int) returns (completelyEmpty: bool)
      requires WellFormed() && 0 <= c < cols
      ensures completelyEmpty <==> forall r :: 0 <= r < rows ==> !table[c][r].focused
    {
      completelyEmpty := true;
      for r := 0 to rows
        invariant forall q :: 0 <= q < r ==> !table[c][q].focused
      {
        if table[c][r].focused {
          completelyEmpty := false;
          break;
        }
      }
    }

    /**
     * The removal branch of cleanup_table's column sweep: column `i` is freed
     * and dropped, moving the later columns left if there are any.
     */
    method DropColumn(i: int)
      requires WellFormed() && 0 <= i < cols && cols > 1
      modifies this`events, this`table, this`cols, NeighbourLine(i)`widthFactor, Cells()`col, Cells()`row
      ensures WellFormed() && cols == old(cols) - 1
      ensures table == RemoveAt(old(table), i)
      ensures events == old(events) + old(LineFreeEvents(table[i]))
      ensures forall x :: x in old(NeighbourLine(i)) ==>
                x.widthFactor == AfterFree(old(x.widthFactor), old(table[i][x.row].widthFactor), old(cols))
    {
      if i < cols - 1 {
        MoveColumnsFrom(i + 1);
      } else {
        FreeColumn(i);
        assert table[..cols - 1] == RemoveAt(table, i);
      }
      ShrinkTableCols();
      assert WellFormed();
    }

    /**
     * One removal of cleanup_table's column sweep: column `i` is dropped and
     * the workspace's column cursor is clamped into the smaller table.
     */
    method RemoveEmptyColumn(i: int)
      requires WellFormed() && 0 <= i < cols && cols > 1
      modifies this, NeighbourLine(i)`widthFactor, Cells()`col, Cells()`row
      ensures WellFormed() && cols == old(cols) - 1 && rows == old(rows)
      ensures table == RemoveAt(old(table), i)
      ensures currentCol == if old(currentCol) >= cols then cols - 1 else old(currentCol)
      ensures currentRow == old(currentRow) && num == old(num)
      ensures events == old(events) + old(LineFreeEvents(table[i]))
      ensures forall x :: x in old(NeighbourLine(i)) ==>
                x.widthFactor == AfterFree(old(x.widthFactor), old(table[i][x.row].widthFactor), old(cols))
      ensures Cells() <= old(Cells())
    {
      MembersRemoveAt(table, i);
      DropColumn(i);
      if currentCol >= cols {
        currentCol := cols - 1;
      }
    }

    /**
     * One iteration of cleanup_table's column sweep at index `i`: a column
     * without a focused client is removed and `i` kept, otherwise `i` advances.
     */
    method SweepColumn(i: int, ghost focused: set<Container>) returns (next: int)
      requires WellFormed() && 0 <= i < cols && cols > 1
      requires forall x :: x in Cells() ==> (x in focused <==> x.focused)
      modifies this, Cells()`col, Cells()`row, Cells()`widthFactor
      ensures WellFormed() && cols >= 1 && rows == old(rows) && 0 <= next <= cols
      ensures ColumnPass(table, next, focused) == ColumnPass(old(table), i, focused)
      ensures (cols == old(cols) - 1 && next == i) || (cols == old(cols) && next == i + 1)
      ensures currentCol == if cols < old(cols) && old(currentCol) >= cols then cols - 1 else old(currentCol)
      ensures currentRow == old(currentRow) && num == old(num)
      ensures Cells() <= old(Cells())
    {
      var completelyEmpty := ColumnIsEmpty(i);
      assert forall r :: 0 <= r < rows ==> table[i][r] in Cells();
      if completelyEmpty {
        assert Blank(table[i], focused);
        RemoveEmptyColumn(i);
        next := i;
      } else {
        assert !Blank(table[i], focused);
        next := i + 1;
      }
    }

    /**
     * The column sweep of cleanup_table: while more than one column is left,
     * a column without a focused client is removed and the same index tested
     * again; otherwise the index advances.
     */
    method CompactColumns()
      requires WellFormed() && cols >= 1
      modifies this, Cells()`col, Cells()`row, Cells()`widthFactor
      ensures WellFormed() && cols >= 1 && rows == old(rows)
      ensures table == ColumnPass(old(table), 0, old(FocusedCells()))
      ensures currentCol == if cols < old(cols) && old(currentCol) >= cols then cols - 1 else old(currentCol)
      ensures currentRow == old(currentRow) && num == old(num)
      ensures Cells() <= old(Cells())
    {
      ghost var focused := FocusedCells();
      ghost var t: seq<seq<Container>> := table;
      var i := 0;
      while cols > 1 && i < cols
        invariant WellFormed() && cols >= 1 && rows == old(rows) && 0 <= i <= cols
        invariant Cells() <= old(Cells())
        invariant forall x :: x in old(Cells()) ==> (x in focused <==> x.focused)
        invariant ColumnPass(table, i, focused) == ColumnPass(t, 0, focused)
        invariant currentCol == if cols < old(cols) && old(currentCol) >= cols then cols - 1 else old(currentCol)
        invariant currentRow == old(currentRow) && num == old(num)
        decreases cols, cols - i
      {
        i := SweepColumn(i, focused);
      }
    }

    /** The inner scan of cleanup_table's row sweep: does row `r` hold no focused client? */
    method RowIsEmpty(r: int) returns (completelyEmpty: bool)
      requires WellFormed() && 0 <= r < rows
      ensures completelyEmpty <==> forall c :: 0 <= c < cols ==> !table[c][r].focused
    {
      completelyEmpty := true;
      for c := 0 to cols
        invariant forall k :: 0 <= k < c ==> !table[k][r].focused
      {
        if table[c][r].focused {
          completelyEmpty := false;
          break;
        }
      }
    }

    /**
     * The removal branch of cleanup_table's row sweep: row `j` is freed and
     * dropped, moving the later rows up if there are any.
     */
    method DropRow(j: int)
      requires WellFormed() && 0 <= j < rows && rows > 1
      modifies this`events, this`table, this`rows, RowCells(j)`widthFactor, Cells()`col, Cells()`row
      ensures WellFormed() && rows == old(rows) - 1
      ensures table == RemoveRow(old(table), j)
      ensures events == old(events) + old(LineFreeEvents(RowOf(table, j)))
    {
      if j < rows - 1 {
        DropInnerRow(j);
      } else {
        DropLastRow();
      }
    }

    /** DropRow for a row with rows after it: they move up over it. */
    method DropInnerRow(j: int)
      requires WellFormed() && 0 <= j < rows - 1
      modifies this`events, this`table, this`rows, RowCells(j)`widthFactor, Cells()`col, Cells()`row
      ensures WellFormed() && rows == old(rows) - 1
      ensures table == RemoveRow(old(table), j)
      ensures events == old(events) + old(LineFreeEvents(RowOf(table, j)))
    {
      ghost var t := table;
      MoveRowsFrom(j + 1);
      ShrinkTableRows();
      assert table == RemoveRow(t, j);
      assert WellFormed();
    }

    /** DropRow for the last row: it is freed and its slot dropped. */
    method DropLastRow()
      requires WellFormed() && rows > 1
      modifies this`events, this`table, this`rows, RowCells(rows - 1)`widthFactor
      ensures WellFormed() && rows == old(rows) - 1
      ensures table == RemoveRow(old(table), rows)
      ensures events == old(events) + old(LineFreeEvents(RowOf(table, rows - 1)))
    {
      ghost var t := table;
      FreeRow(rows - 1);
      ShrinkTableRows();
      forall k | 0 <= k < cols ensures table[k] == RemoveAt(t[k], rows) { }
      assert table == RemoveRow(t, rows);
    }

    /**
     * One removal of cleanup_table's row sweep: row `j` is dropped and the
     * workspace's row cursor is clamped into the smaller table.
     */
    method RemoveEmptyRow(j: int)
      requires WellFormed() && 0 <= j < rows && rows > 1
      modifies this, RowCells(j)`widthFactor, Cells()`col, Cells()`row
      ensures WellFormed() && rows == old(rows) - 1 && cols == old(cols)
      ensures table == RemoveRow(old(table), j)
      ensures currentRow == if old(currentRow) >= rows then rows - 1 else old(currentRow)
      ensures currentCol == old(currentCol) && num == old(num)
      ensures events == old(events) + old(LineFreeEvents(RowOf(table, j)))
      ensures Cells() <= old(Cells())
    {
      MembersRemoveRow(table, j);
      DropRow(j);
      if currentRow >= rows {
        currentRow := rows - 1;
      }
    }

    /**
     * One iteration of cleanup_table's row sweep at index `j`: a row without
     * a focused client is removed and `j` kept, otherwise `j` advances.
     */
    method SweepRow(j: int, ghost focused: set<Container>) returns (next: int)
      requires WellFormed() && cols >= 1 && 0 <= j < rows && rows > 1
      requires forall x :: x in Cells() ==> (x in focused <==> x.focused)
      modifies this, Cells()`col, Cells()`row, Cells()`widthFactor
      ensures WellFormed() && rows >= 1 && cols == old(cols) && 0 <= next <= rows
      ensures RowPass(table, next, focused) == RowPass(old(table), j, focused)
      ensures (rows == old(rows) - 1 && next == j) || (rows == old(rows) && next == j + 1)
      ensures currentRow == if rows < old(rows) && old(currentRow) >= rows then rows - 1 else old(currentRow)
      ensures currentCol == old(currentCol) && num == old(num)
      ensures Cells() <= old(Cells())
    {
      var completelyEmpty := RowIsEmpty(j);
      assert forall c :: 0 <= c < cols ==> table[c][j] in Cells();
      if completelyEmpty {
        assert Blank(RowOf(table, j), focused);
        SweepBlankRow(j, focused);
        next := j;
      } else {
        assert !Blank(RowOf(table, j), focused);
        next := j + 1;
      }
    }

    /** SweepRow's removal step, for a row known to be blank. */
    method SweepBlankRow(j: int, ghost focused: set<Container>)
      requires WellFormed() && cols >= 1 && 0 <= j < rows && rows > 1
      requires Blank(RowOf(table, j), focused)
      modifies this, Cells()`col, Cells()`row, Cells()`widthFactor
      ensures WellFormed() && rows == old(rows) - 1 && cols == old(cols)
      ensures RowPass(table, j, focused) == RowPass(old(table), j, focused)
      ensures currentRow == if old(currentRow) >= rows then rows - 1 else old(currentRow)
      ensures currentCol == old(currentCol) && num == old(num)
      ensures Cells() <= old(Cells())
    {
      ghost var t := table;
      RemoveEmptyRow(j);
      assert RowPass(t, j, focused) == RowPass(RemoveRow(t, j), j, focused);
    }

    /**
     * The row sweep of cleanup_table: while more than one row is left, a row
     * without a focused client is removed and the same index tested again;
     * otherwise the index advances.
     */
    method CompactRows()
      requires WellFormed() && cols >= 1 && rows >= 1
      modifies this, Cells()`col, Cells()`row, Cells()`widthFactor
      ensures WellFormed() && rows >= 1 && cols == old(cols)
      ensures table == RowPass(old(table), 0, old(FocusedCells()))
      ensures currentRow == if rows < old(rows) && old(currentRow) >= rows then rows - 1 else old(currentRow)
      ensures currentCol == old(currentCol) && num == old(num)
      ensures Cells() <= old(Cells())
    {
      ghost var focused := FocusedCells();
      ghost var t: seq<seq<Container>> := table;
      var j := 0;
      while rows > 1 && j < rows
        invariant WellFormed() && rows >= 1 && cols == old(cols) >= 1 && 0 <= j <= rows
        invariant Cells() <= old(Cells())
        invariant forall x :: x in old(Cells()) ==> (x in focused <==> x.focused)
        invariant RowPass(table, j, focused) == RowPass(t, 0, focused)
        invariant currentRow == if rows < old(rows) && old(currentRow) >= rows then rows - 1 else old(currentRow)
        invariant currentCol == old(currentCol) && num == old(num)
        decreases rows, rows - j
      {
        j := SweepRow(j, focused);
      }
    }

    /**
     * The two sweeps of cleanup_table: every blank column and then every
     * blank row is removed (one of each kind is always kept), the focused
     * containers all survive, and the cursor is clamped into the smaller grid.
     */
    method Cleanup()
      requires WellFormed() && cols >= 1 && rows >= 1
      modifies this, Cells()`col, Cells()`row, Cells()`widthFactor
      ensures WellFormed() && cols >= 1 && rows >= 1
      ensures table == Compacted(old(table), old(FocusedCells()))
      ensures FocusedCells() == old(FocusedCells())
      ensures cols == 1 || forall c :: 0 <= c < cols ==> !Blank(table[c], FocusedCells())
      ensures rows == 1 || forall r :: 0 <= r < rows ==> !Blank(RowOf(table, r), FocusedCells())
      ensures currentCol == if cols < old(cols) && old(currentCol) >= cols then cols - 1 else old(currentCol)
      ensures currentRow == if rows < old(rows) && old(currentRow) >= rows then rows - 1 else old(currentRow)
      ensures num == old(num) && Cells() <= old(Cells())
      ensures old(Valid()) ==> Valid()
    {
      ghost var focused := FocusedCells();
      ghost var t: seq<seq<Container>> := table;
      ghost var inBounds := 0 <= currentCol < cols && 0 <= currentRow < rows;
      SweepColumns(focused);
      ghost var t1: seq<seq<Container>> := table;
      SweepRows(focused);
      assert table == Compacted(t, focused);
      CompactedOutcome(t, focused);
      assert inBounds ==> 0 <= currentCol < cols && 0 <= currentRow < rows;
    }

    /** The column sweep of cleanup_table, with the focused containers it keeps. */
    method SweepColumns(ghost focused: set<Container>)
      requires WellFormed() && cols >= 1 && rows >= 1 && focused == FocusedCells()
      modifies this, Cells()`col, Cells()`row, Cells()`widthFactor
      ensures WellFormed() && cols >= 1 && rows == old(rows)
      ensures table == ColumnPass(old(table), 0, focused)
      ensures FocusedCells() == focused
      ensures cols == 1 || forall c :: 0 <= c < cols ==> !Blank(table[c], focused)
      ensures currentCol == if cols < old(cols) && old(currentCol) >= cols then cols - 1 else old(currentCol)
      ensures currentRow == old(currentRow) && num == old(num) && Cells() <= old(Cells())
    {
      ghost var t: seq<seq<Container>> := table;
      CompactColumns();
      MembersColumnPass(t, focused);
      ColumnPassOutcome(t, focused);
      assert FocusedCells() == focused;
    }

    /** The row sweep of cleanup_table, with the focused containers it keeps. */
    method SweepRows(ghost focused: set<Container>)
      requires WellFormed() && cols >= 1 && rows >= 1 && focused == FocusedCells()
      modifies this, Cells()`col, Cells()`row, Cells()`widthFactor
      ensures WellFormed() && rows >= 1 && cols == old(cols)
      ensures table == RowPass(old(table), 0, focused)
      ensures FocusedCells() == focused
      ensures rows == 1 || forall r :: 0 <= r < rows ==> !Blank(RowOf(table, r), focused)
      ensures currentRow == if rows < old(rows) && old(currentRow) >= rows then rows - 1 else old(currentRow)
      ensures currentCol == old(currentCol) && num == old(num) && Cells() <= old(Cells())
    {
      ghost var t: seq<seq<Container>> := table;
      CompactRows();
      MembersRowPass(t, focused);
      RowPassOutcome(t, focused);
      assert FocusedCells() == focused;
    }
  }

  /**
   * The globals of table.c: the ten workspaces, the current one (`c_ws`) and
   * the global cursor into its table.
   */
  class Layout {
    const workspaces: seq<Workspace>
    var currentWorkspace: int
    var cWs: Workspace
    var currentCol: int
    var currentRow: int
    /** The set_focus calls made at this level, oldest first. */
    ghost var events: seq<Event>

    /** The ten workspaces are ten distinct objects. */
    ghost predicate Distinct() {
      |workspaces| == 10 && forall i, j :: 0 <= i < j < |workspaces| ==> workspaces[i] != workspaces[j]
    }

    /** The static initial values: zeroed workspaces, the first one current. */
    constructor ()
      ensures Distinct() && cWs == workspaces[0]
      ensures forall i :: 0 <= i < 10 ==> fresh(workspaces[i]) && workspaces[i].Zeroed()
      ensures currentWorkspace == 0 && currentCol == 0 && currentRow == 0
      ensures events == []
    {
      var ws: seq<Workspace> := [];
      for i := 0 to 10
        invariant |ws| == i
        invariant forall k :: 0 <= k < i ==> fresh(ws[k]) && ws[k].Zeroed()
        invariant forall k, l :: 0 <= k < l < i ==> ws[k] != ws[l]
      {
        var w := new Workspace();
        ws := ws + [w];
      }
      workspaces := ws;
      currentWorkspace := 0;
      cWs := ws[0];
      currentCol, currentRow := 0, 0;
      events := [];
    }

    /**
     * init_table: every workspace is zeroed, numbered by its index and given
     * one column and one row, so that it holds a single fresh container.
     */
    method InitTable()
      requires Distinct()
      modifies set w | w in workspaces
      ensures forall i :: 0 <= i < 10 ==>
                workspaces[i].num == i && workspaces[i].Initial() && fresh(workspaces[i].table[0][0])
      ensures forall i :: 0 <= i < 10 ==> workspaces[i].events == old(workspaces[i].events)
    {
      for i := 0 to 10
        invariant forall k :: 0 <= k < i ==> workspaces[k].Zeroed()
        invariant forall k :: 0 <= k < 10 ==> workspaces[k].events == old(workspaces[k].events)
      {
        workspaces[i].Zero();
      }
      for i := 0 to 10
        invariant forall k :: 0 <= k < i ==>
                    workspaces[k].num == k && workspaces[k].Initial() && fresh(workspaces[k].table[0][0])
        invariant forall k :: i <= k < 10 ==> workspaces[k].Zeroed()
        invariant forall k :: 0 <= k < 10 ==> workspaces[k].events == old(workspaces[k].events)
      {
        workspaces[i].Setup(i);
      }
    }

    /** cell_exists: bounds checking against the current workspace's table. */
    function CellExists(col: int, row: int): (b: bool)
      reads this, cWs, cWs.Cells()
      ensures cWs.WellFormed() ==> (b <==> 0 <= col < |cWs.table| && 0 <= row < |cWs.table[col]|)
    {
      (col >= 0 && col < cWs.cols) && (row >= 0 && row < cWs.rows)
    }

    // -------------------------------------------------------------------------
    // Compaction (cleanup_table)
    // -------------------------------------------------------------------------

    /**
     * cleanup_table: the column sweep and then the row sweep of `ws`, the
     * global cursor clamped into the current workspace, and set_focus called
     * when the cell under it holds a focused client.
     */
    method CleanupTable(ws: Workspace)
      requires ws.WellFormed() && ws.cols >= 1 && ws.rows >= 1
      requires cWs.WellFormed() && cWs.cols >= 1 && cWs.rows >= 1
      requires 0 <= currentCol && 0 <= currentRow
      modifies ws, ws.Cells()`col, ws.Cells()`row, ws.Cells()`widthFactor, this`currentCol, this`currentRow, this`events
      ensures ws.WellFormed() && ws.cols >= 1 && ws.rows >= 1
      ensures ws.table == Compacted(old(ws.table), old(ws.FocusedCells()))
      ensures ws.FocusedCells() == old(ws.FocusedCells())
      ensures ws.currentCol == if ws.cols < old(ws.cols) && old(ws.currentCol) >= ws.cols then ws.cols - 1 else old(ws.currentCol)
      ensures ws.currentRow == if ws.rows < old(ws.rows) && old(ws.currentRow) >= ws.rows then ws.rows - 1 else old(ws.currentRow)
      ensures ws.num == old(ws.num)
      ensures old(ws.Valid()) ==> ws.Valid()
      ensures cWs.WellFormed() && 0 <= currentCol < cWs.cols && 0 <= currentRow < cWs.rows
      ensures currentCol == if old(currentCol) >= cWs.cols then cWs.cols - 1 else old(currentCol)
      ensures currentRow == if old(currentRow) >= cWs.rows then cWs.rows - 1 else old(currentRow)
      ensures events == old(events) +
                if cWs.table[currentCol][currentRow].focused then [SetFocus(cWs.table[currentCol][currentRow])] else []
    {
      ws.CellsOwned();
      cWs.CellsOwned();
      assert ws != cWs ==> ws.Cells() !! cWs.Cells();
      ws.Cleanup();
      ghost var focused := ws.FocusedCells();
      ClampCursor();
      assert ws.FocusedCells() == focused;
    }

    /** The tail of cleanup_table: clamp the cursor and refocus the cell under it. */
    method ClampCursor()
      requires cWs.WellFormed() && cWs.cols >= 1 && cWs.rows >= 1
      requires 0 <= currentCol && 0 <= currentRow
      modifies this`currentCol, this`currentRow, this`events
      ensures 0 <= currentCol < cWs.cols && 0 <= currentRow < cWs.rows
      ensures currentCol == if old(currentCol) >= cWs.cols then cWs.cols - 1 else old(currentCol)
      ensures currentRow == if old(currentRow) >= cWs.rows then cWs.rows - 1 else old(currentRow)
      ensures events == old(events) +
                if cWs.table[currentCol][currentRow].focused then [SetFocus(cWs.table[currentCol][currentRow])] else []
    {
      if currentCol >= cWs.cols {
        currentCol := cWs.cols - 1;
      }
      if currentRow >= cWs.rows {
        currentRow := cWs.rows - 1;
      }
      if cWs.table[currentCol][currentRow].focused {
        events := events + [SetFocus(cWs.table[currentCol][currentRow])];
      }
    }

    // -------------------------------------------------------------------------
    // Span repair (fix_colrowspan)
    // -------------------------------------------------------------------------

    /** The colspan loop of fix_colrowspan for the container at (c, r). */
    method FixColspan(ws: Workspace, c: int, r: int, ghost focused: set<Container>)
      requires ws == cWs && |ws.table| == ws.cols && 0 <= ws.rows && IsRect(ws.table, ws.rows)
      requires 0 <= c < ws.cols && 0 <= r < ws.rows
      requires forall x :: x in ws.Cells() ==> (x in focused <==> x.focused)
      modifies {ws.table[c][r]}`colspan
      ensures ws.table[c][r].colspan == Shrink(RowOf(ws.table, r), focused, c, old(ws.table[c][r].colspan))
    {
      var con := ws.table[c][r];
      ghost var line := RowOf(ws.table, r);
      if con.colspan > 1 {
        while con.colspan > 1 && (!CellExists(c + (con.colspan - 1), r) || ws.table[c + (con.colspan - 1)][r].focused)
          invariant Shrink(line, focused, c, con.colspan) == Shrink(line, focused, c, old(con.colspan))
          decreases con.colspan
        {
          con.colspan := con.colspan - 1;
        }
      }
    }

    /** The rowspan loop of fix_colrowspan for the container at (c, r). */
    method FixRowspan(ws: Workspace, c: int, r: int, ghost focused: set<Container>)
      requires ws == cWs && |ws.table| == ws.cols && 0 <= ws.rows && IsRect(ws.table, ws.rows)
      requires 0 <= c < ws.cols && 0 <= r < ws.rows
      requires forall x :: x in ws.Cells() ==> (x in focused <==> x.focused)
      modifies {ws.table[c][r]}`rowspan
      ensures ws.table[c][r].rowspan == Shrink(ws.table[c], focused, r, old(ws.table[c][r].rowspan))
    {
      var con := ws.table[c][r];
      ghost var line := ws.table[c];
      if con.rowspan > 1 {
        while con.rowspan > 1 && (!CellExists(c, r + (con.rowspan - 1)) || ws.table[c][r + (con.rowspan - 1)].focused)
          invariant Shrink(line, focused, r, con.rowspan) == Shrink(line, focused, r, old(con.rowspan))
          decreases con.rowspan
        {
          con.rowspan := con.rowspan - 1;
        }
      }
    }

    /** The inner loop of fix_colrowspan's table walk: the cells of column `c`, top to bottom. */
    method FixColumnSpans(ws: Workspace, c: int, ghost focused: set<Container>)
      requires ws == cWs && |ws.table| == ws.cols && 0 <= ws.rows && IsRect(ws.table, ws.rows) && 0 <= c < ws.cols
      requires forall q :: 0 <= q < ws.rows ==> ws.table[c][q].col == c && ws.table[c][q].row == q
      requires forall x :: x in ws.Cells() ==> (x in focused <==> x.focused)
      modifies (set x | x in ws.table[c])`colspan, (set x | x in ws.table[c])`rowspan
      ensures forall r :: 0 <= r < ws.rows ==>
                ws.table[c][r].colspan == Shrink(RowOf(ws.table, r), focused, c, old(ws.table[c][r].colspan)) &&
                ws.table[c][r].rowspan == Shrink(ws.table[c], focused, r, old(ws.table[c][r].rowspan))
      ensures forall x: Container :: old(allocated(x)) && x.col != c ==> x.colspan == old(x.colspan) && x.rowspan == old(x.rowspan)
    {
      ghost var t: seq<seq<Container>> := ws.table;
      ghost var cells: seq<Container> := t[c];
      for r := 0 to ws.rows
        invariant forall x :: x in ws.Cells() ==> (x in focused <==> x.focused)
        invariant forall q :: 0 <= q < |cells| ==> cells[q].col == c && cells[q].row == q
        invariant forall x: Container :: old(allocated(x)) && x.col != c ==> x.colspan == old(x.colspan) && x.rowspan == old(x.rowspan)
        invariant forall q :: 0 <= q < r ==>
                    cells[q].colspan == Shrink(RowOf(t, q), focused, c, old(cells[q].colspan)) &&
                    cells[q].rowspan == Shrink(cells, focused, q, old(cells[q].rowspan))
        invariant forall q :: r <= q < |cells| ==>
                    cells[q].colspan == old(cells[q].colspan) && cells[q].rowspan == old(cells[q].rowspan)
      {
        FixColspan(ws, c, r, focused);
        FixRowspan(ws, c, r, focused);
      }
    }

    /**
     * fix_colrowspan: every span longer than one cell is shrunk until its far
     * end is a cell of the current workspace that holds no focused client.
     */
    method FixColrowspan(ws: Workspace)
      requires ws == cWs && ws.WellFormed()
      modifies ws.Cells()`colspan, ws.Cells()`rowspan
      ensures ws.WellFormed() && ws.FocusedCells() == old(ws.FocusedCells())
      ensures forall c, r :: 0 <= c < ws.cols && 0 <= r < ws.rows ==>
                ws.table[c][r].colspan == Shrink(RowOf(ws.table, r), ws.FocusedCells(), c, old(ws.table[c][r].colspan)) &&
                ws.table[c][r].rowspan == Shrink(ws.table[c], ws.FocusedCells(), r, old(ws.table[c][r].rowspan))
    {
      ghost var focused := ws.FocusedCells();
      FixAllSpans(ws, focused);
      assert forall x :: x in ws.Cells() ==> (x in focused <==> x.focused);
      assert ws.FocusedCells() == focused;
      forall c, r | 0 <= c < ws.cols && 0 <= r < ws.rows ensures ws.Placed(ws.table[c][r], c, r) {
        assert old(ws.Placed(ws.table[c][r], c, r));
        assert ws.table[c][r].colspan == Shrink(RowOf(ws.table, r), focused, c, old(ws.table[c][r].colspan));
        assert ws.table[c][r].rowspan == Shrink(ws.table[c], focused, r, old(ws.table[c][r].rowspan));
      }
    }

    /** The table walk of fix_colrowspan, column by column. */
    method FixAllSpans(ws: Workspace, ghost focused: set<Container>)
      requires ws == cWs && |ws.table| == ws.cols && 0 <= ws.rows && IsRect(ws.table, ws.rows)
      requires forall k, r :: 0 <= k < ws.cols && 0 <= r < ws.rows ==> ws.table[k][r].col == k && ws.table[k][r].row == r
      requires forall x :: x in ws.Cells() ==> (x in focused <==> x.focused)
      modifies ws.Cells()`colspan, ws.Cells()`rowspan
      ensures forall c, r :: 0 <= c < ws.cols && 0 <= r < ws.rows ==>
                ws.table[c][r].colspan == Shrink(RowOf(ws.table, r), focused, c, old(ws.table[c][r].colspan)) &&
                ws.table[c][r].rowspan == Shrink(ws.table[c], focused, r, old(ws.table[c][r].rowspan))
    {
      ghost var t: seq<seq<Container>> := ws.table;
      for c := 0 to ws.cols
        invariant forall x :: x in ws.Cells() ==> (x in focused <==> x.focused)
        invariant forall k, r :: 0 <= k < |t| && 0 <= r < ws.rows ==> t[k][r].col == k && t[k][r].row == r
        invariant forall k, r :: 0 <= k < c && 0 <= r < ws.rows ==>
                    t[k][r].colspan == Shrink(RowOf(t, r), focused, k, old(t[k][r].colspan)) &&
                    t[k][r].rowspan == Shrink(t[k], focused, r, old(t[k][r].rowspan))
        invariant forall k, r :: c <= k < |t| && 0 <= r < ws.rows ==>
                    t[k][r].colspan == old(t[k][r].colspan) && t[k][r].rowspan == old(t[k][r].rowspan)
      {
        FixColumnSpans(ws, c, focused);
      }
    }
  }
}
