# i3 layout table

This project models `src/table.c` of the i3 tiling window manager. In that file each workspace holds a column-major grid `table[col][row]` of containers. The grid grows by a row or a column at either end. Freed cells hand their width factor to a neighbour. `cleanup_table` removes blank rows and columns (those that hold no focused client) but always keeps at least one of each. `fix_colrowspan` shrinks spans until each is one cell long or ends on a cell that exists and is free.

The model is imperative, like the source:

- `Table.Container` is a class. Containers are references, so a shift moves the same object and rewrites its `col`/`row` in place.
- `Table.Workspace` is a class whose `table: seq<seq<Container>>` is reassigned where the C code reallocates.
- `Table.Layout` holds the file's globals: the ten workspaces, `c_ws` and the global cursor.
- The loops of the source are `while`/`for` loops, each with its invariants.

The module `Grid` (grid.dfy) holds the value-level definitions that the methods are proved against:

- `ColumnPass` and `RowPass` are the two sweeps of `cleanup_table` written as recursion with the same index discipline: re-test after a removal, advance otherwise.
- `NonBlank` is an independent reference filter.
- `Transpose` relates the row sweep to the column sweep.
- `Shrink` is the decrement loop of `fix_colrowspan`.
- `Neighbour`, `Credit` and `AfterFree` describe the width hand-over of `free_container`.

A container's `focused` flag stands for `currently_focused != NULL`. Calls to code outside the file are appended to a ghost `events` log:

- `leave_stack_mode` and `free` are logged on the workspace;
- `set_focus` is logged on the layout.

The specification of the sweeps and of span repair uses the set of focused containers, `FocusedCells()`.

## Model

| member | source | states |
|---|---|---|
| Table.Container.constructor | src/table.c:50-59 | new_container: the container records its workspace, column and row, has spans of 1, no focused client, width factor 0 and the default mode |
| Table.Workspace.constructor | src/table.c:29 | a workspace in static storage starts all-zero: no table, 0 x 0, cursor at (0,0) |
| Table.Workspace.Zero | src/table.c:40 | the memset of init_table: every field of the workspace is zero again |
| Table.Workspace.Setup | src/table.c:43-46 | one iteration of init_table: the workspace gets its number and, after growing 0x0 to 1x0 to 1x1, is well formed with one fresh pristine container at (0,0) |
| Table.Layout.constructor | src/table.c:28-33 | the globals: ten distinct zeroed workspaces, c_ws is workspace 0, current workspace and cursor are 0 |
| Table.Layout.InitTable | src/table.c:39-48 | every workspace i ends with number i, a 1 x 1 table, cursor (0,0), and a fresh container with spans 1; nothing is logged |
| Table.Workspace.ExpandTableRows | src/table.c:65-72 | rows grows by exactly 1, cols is kept, every old slot is kept, every new bottom slot holds a fresh pristine container placed at its slot, the cursor is kept, the table stays well formed |
| Table.GrowColumns | src/table.c:81-82 | the realloc loop of expand_table_rows_at_head: each column gains one empty slot at its end |
| Table.ShiftDown | src/table.c:86-90 | inner shift loop: each container of the column moves from slot q to q+1 and its row field becomes q+1 |
| Table.ShiftRowsDown | src/table.c:85-90 | every column is shifted down by one slot and every old container's row field is its new index |
| Table.Workspace.NewHeadRow | src/table.c:91-92 | slot 0 of every column receives a fresh pristine container placed at (k, 0); the other slots are untouched |
| Table.Workspace.ExpandTableRowsAtHead | src/table.c:78-93 | rows grows by 1, old column c becomes slots 1.. of new column c, row 0 holds fresh pristine containers, the cursor is kept, the table stays well formed |
| Table.Workspace.ExpandTableCols | src/table.c:99-106 | cols grows by exactly 1, the old columns are kept, the new last column holds fresh pristine containers at their slots, the cursor is kept |
| Table.ShiftRight | src/table.c:120-124 | inner loop: in row r every container moves one column right and its col field becomes its new column; other rows untouched |
| Table.ShiftColumnsRight | src/table.c:119-124 | every old column k is now column k+1 and every old container's col field is k+1 |
| Table.Workspace.NewHeadColumn | src/table.c:126-127 | column 0 receives fresh pristine containers placed at (0, r); the other columns are untouched |
| Table.Workspace.ExpandTableColsAtHead | src/table.c:112-128 | cols grows by 1, the old table is columns 1.., column 0 is fresh pristine containers, the cursor is kept, the table stays well formed |
| Table.Workspace.ShrinkTableCols | src/table.c:138-146 | cols drops by 1 and the table keeps exactly its first cols columns |
| Table.Workspace.ShrinkTableRows | src/table.c:152-156 | rows drops by 1 and every column keeps exactly its first rows slots |
| Table.Layout.CellExists | src/table.c:163-166 | true exactly when (col,row) indexes a slot of the current workspace's table; it reads and changes nothing else |
| Grid.Neighbour | src/table.c:176-182 | the receiver is the left column when col > 0, else the right column when one exists; there is none exactly when the table has one column |
| Grid.DefaultShare | src/table.c:186 | the default share is positive, at most 1, and cols shares add up to the whole width |
| Grid.Credit | src/table.c:185-188 | a receiver with factor 0 is first set to the default share; then the freed factor is added |
| Grid.AfterFree | src/table.c:175-191 | a receiver is credited only when the freed factor is positive, otherwise it keeps its factor; it never decreases |
| Table.Receive | src/table.c:184-190 | the receiving container's width factor becomes Credit of its old factor |
| Table.Workspace.FreeContainer | src/table.c:168-194 | logs leave_stack_mode (only in stack mode) before free; each receiver gets AfterFree of its factor; no other width factor changes |
| Table.Workspace.FreeColumn | src/table.c:200-201 | frees every container of the column in row order (the log gains their events in that order); each neighbour cell is credited with the factor of the cell in its row |
| Table.MoveLine | src/table.c:204-213 | the moved line is returned unchanged and each of its containers now records column c and its own row |
| Table.Workspace.ShiftColumnsLeft | src/table.c:203-213 | columns from-1.. are the old table without column from-1, the last slot column is untouched, and every moved container is placed at its new slot |
| Table.Workspace.MoveColumnsFrom | src/table.c:196-214 | move_columns_from: column from-1 is freed with its events and width hand-over, and the later columns slide left with their col fields rewritten |
| Table.Workspace.FreeRow | src/table.c:217-218 | frees every container of row j from left to right; the log gains their events in that order |
| Table.MoveRowUp | src/table.c:221-228 | one row moves up a slot in every column and its containers record row r-1; containers of other rows keep their fields |
| Table.Workspace.MoveRowsUp | src/table.c:220-229 | rows from.. move up by one slot; rows before from-1 and the last slot row stay; every moved container records its new slot |
| Table.Workspace.ShiftRowsUp | src/table.c:220-229 | every column's first rows-1 slots are the old column without slot from-1, and every container there is placed at its slot |
| Table.Workspace.MoveRowsFrom | src/table.c:216-230 | move_rows_from: row from-1 is freed with its events, and the later rows slide up with their row fields rewritten |
| Table.Workspace.ColumnIsEmpty | src/table.c:262-267 | the column counts as empty exactly when none of its containers has a focused client |
| Table.Workspace.DropColumn | src/table.c:268-274 | the column is removed from the table (move_columns_from or freeing the last column, then shrink_table_cols), its frees are logged, the neighbour gets the width, the table stays well formed |
| Table.Workspace.RemoveEmptyColumn | src/table.c:268-279 | DropColumn plus the clamp of the workspace's current column into the smaller table |
| Table.Workspace.SweepColumn | src/table.c:261-279 | one iteration of the column loop: either the column was removed and the index stays, or the index advances; in both cases the rest of the sweep is unchanged (ColumnPass is invariant) |
| Table.Workspace.CompactColumns | src/table.c:260-280 | the column loop leaves exactly ColumnPass of the old table with at least one column, rows kept, a well-formed table and the clamped current column |
| Table.Workspace.SweepColumns | src/table.c:260-280 | the column loop keeps every focused container, and afterwards either one column is left or no column is blank |
| Table.Workspace.RowIsEmpty | src/table.c:285-290 | the row counts as empty exactly when none of its containers has a focused client |
| Table.Workspace.DropInnerRow | src/table.c:292-293 | an inner row is removed by move_rows_from and shrink_table_rows, and its frees are logged |
| Table.Workspace.DropLastRow | src/table.c:294-298 | the last row is freed cell by cell and cut off by shrink_table_rows |
| Table.Workspace.DropRow | src/table.c:291-298 | either branch removes exactly row j from every column, logs its frees, and keeps the table well formed |
| Table.Workspace.RemoveEmptyRow | src/table.c:291-301 | DropRow plus the clamp of the workspace's current row into the smaller table |
| Table.Workspace.SweepBlankRow | src/table.c:291-301 | removing a blank row leaves the rest of the row sweep unchanged |
| Table.Workspace.SweepRow | src/table.c:284-303 | one iteration of the row loop: either the row was removed and the index stays, or the index advances; RowPass is invariant |
| Table.Workspace.CompactRows | src/table.c:283-304 | the row loop leaves exactly RowPass of the old table with at least one row, cols kept, a well-formed table and the clamped current row |
| Table.Workspace.SweepRows | src/table.c:283-304 | the row loop keeps every focused container, and afterwards either one row is left or no row is blank |
| Table.Workspace.Cleanup | src/table.c:259-304 | both sweeps: the table is Compacted of the old one, every focused container survives, cols == 1 or no column is blank, rows == 1 or no row is blank, the workspace cursor is clamped, and a cursor that was in bounds stays in bounds (Valid is kept) |
| Table.Layout.ClampCursor | src/table.c:306-314 | the global cursor is clamped into c_ws, and set_focus is logged exactly when the cell under the cursor has a focused client |
| Table.Layout.CleanupTable | src/table.c:256-315 | cleanup_table on any workspace, c_ws or not: the table becomes Compacted of the old one, the focused containers are those of before, both cursors are clamped (Valid of the workspace is kept), set_focus is logged for a focused cell under the cursor |
| Grid.ColumnPass | src/table.c:260-280 | the column loop of cleanup_table; the body is the definition: re-test the same index after removing a blank column, advance otherwise, stop at one column. Its ensures keeps between 1 and the old number of columns. Grid.ColumnPassIsFilter and Grid.ColumnPassOutcome describe it |
| Grid.RowPass | src/table.c:283-304 | the row loop of cleanup_table; the body is the definition, with the same index discipline over rows. Its ensures keeps the number of columns. Grid.RowPassIsTransposedColumnPass and Grid.RowPassOutcome describe it |
| Grid.Compacted | src/table.c:256-304 | both sweeps of cleanup_table, columns first; the body is the definition. Its ensures keeps between 1 and the old number of columns. Grid.CompactedOutcome and Grid.CompactedUndoesAppendedBlank describe it |
| Grid.ColumnPassDropsAppendedBlank | src/table.c:260-280 | round trip with expand_table_cols: a blank column appended to a grid without blank columns is removed, and the grid comes back unchanged |
| Grid.RowPassKeepsFullRows | src/table.c:283-304 | the row sweep leaves a grid with no blank row unchanged |
| Grid.CompactedUndoesAppendedBlank | src/table.c:256-304 | round trip: on a grid with no blank column and no blank row, adding a blank column and running both sweeps gives back the grid, so the column count returns to its old value |
| Table.MembersColumnPass | src/table.c:260-280 | no focused container is ever freed by the column sweep |
| Table.MembersRowPass | src/table.c:283-304 | no focused container is ever freed by the row sweep |
| Grid.ColumnPassShape | src/table.c:260-280 | the column sweep keeps at least one column and the height of every column |
| Grid.ColumnPassIsFilter | src/table.c:260-280 | the column sweep equals the order-preserving filter of non-blank columns, or the last column alone when every column is blank |
| Grid.ColumnPassOutcome | src/table.c:260-280 | after the column sweep there is at least one column and no more than before, and either one is left or none is blank |
| Grid.ColumnPassKeepsFocused | src/table.c:262-267 | a column holding a focused cell survives the column sweep unchanged |
| Grid.NonBlankMembers | src/table.c:262-267 | the reference filter keeps exactly the non-blank columns |
| Grid.RowPassIsTransposedColumnPass | src/table.c:283-304 | the row sweep is the column sweep of the transposed grid, transposed back |
| Grid.RowPassKeepsFocused | src/table.c:285-290 | a focused container stays in its column through the row sweep |
| Grid.RowPassOutcome | src/table.c:283-304 | after the row sweep the grid has the same columns, is rectangular with at least one row, and either one row is left or no row is blank |
| Grid.RowPassKeepsLiveColumns | src/table.c:283-304 | the row sweep cannot make a non-blank column blank, so the column-sweep guarantee survives the row sweep |
| Grid.CompactedOutcome | src/table.c:256-304 | after cleanup the grid is rectangular and no larger, with cols == 1 or every column non-blank, and rows == 1 or every row non-blank |
| Table.Layout.FixColspan | src/table.c:326-333 | the colspan loop leaves exactly Shrink of the old colspan along the container's row |
| Table.Layout.FixRowspan | src/table.c:334-341 | the rowspan loop leaves exactly Shrink of the old rowspan along the container's column |
| Table.Layout.FixColumnSpans | src/table.c:324-342 | every container of column c gets both spans shrunk; containers of other columns keep their spans |
| Table.Layout.FixAllSpans | src/table.c:324-342 | the FOR_TABLE loop: every container's spans become the Shrink of their old values |
| Table.Layout.FixColrowspan | src/table.c:321-343 | fix_colrowspan keeps the table well formed and the focus unchanged, and sets every span to Shrink of its old value against the current focus |
| Grid.Shrink | src/table.c:328-331 | the span never grows, stays at least 1, and ends at 1 or on a far cell that exists and is not focused |
| Grid.ShrinkIsLongestFree | src/table.c:328-339 | every length between the result and the old span is blocked, so the result is the longest free span not above the old one |
| Grid.ShrinkIdempotent | src/table.c:321-343 | a span that is 1 or already ends on an existing free cell is kept, and shrinking an already shrunk span changes nothing |
| Grid.ShrinkFits | src/table.c:321-343 | after repair both spans of a cell fit, and spans that already fit are left alone, so a second fix_colrowspan changes nothing |
| Grid.ShrinkTestsFarCellOnly | src/table.c:329-330 | only the far cell is tested: a focused cell strictly inside a span does not shrink it |
| Table.Workspace.NoAliasing | src/table.c:56-58 | in a well-formed table no two slots hold the same container |
| Table.Workspace.CellsOwned | src/table.c:58 | every container of a well-formed table belongs to that workspace, so two workspaces share no container |

## Left out

- The X connection, all `LOG` output, and `dump_table` (which only logs) are not modelled.
- `workspaces[i].screen = NULL` in `init_table` is not modelled, because the model has no screens.
- The client queue (`CIRCLEQ`) of a container is not modelled. Only whether `currently_focused` is null matters to this file.
- `leave_stack_mode`, `free` and `set_focus` are recorded as events only; their effects belong to other files.
- `calloc`/`realloc`/`free` of the slot arrays become sequence resizes. Allocation failure is not modelled.
- Integers are unbounded. `cols`, `rows` and the spans never come near the 32-bit limit in the code paths modelled.
- Grid.DefaultShare: the share is the exact real `1/cols`. The float rounding of `(float)width / cols / width` and the NaN that `rect.width == 0` would give are not modelled.
- Grid.Credit: every width factor is an exact real, not a C float. The sum `+=` at src/table.c:188 is exact and the comparisons with 0 at src/table.c:175 and :185 are exact. The strict growth that Credit and AfterFree state holds only in the model: in C a tiny freed factor can be absorbed by rounding (1.0f plus 2^-30 is 1.0f).
- Table.Workspace.FreeRow: states the logged frees but nothing about width factors. For `col > 0`, `free_container` credits `table[col-1][row]`, which was freed one iteration earlier. This is a use-after-free in the source, and the model leaves it unspecified.
- Table.Workspace.MoveRowsFrom, Table.Workspace.DropRow, Table.Workspace.DropInnerRow and Table.Workspace.DropLastRow state no width factors, for the same reason.
- Table.Workspace.CompactColumns, Table.Workspace.CompactRows, Table.Workspace.Cleanup and Table.Layout.CleanupTable state neither the width factors after each sweep nor the exact contents of the free log of a workspace. The per-removal contracts (DropColumn, RemoveEmptyColumn, DropRow, RemoveEmptyRow) state what one removal logs.
- Table.Layout.FixColrowspan, Table.Layout.FixAllSpans, Table.Layout.FixColumnSpans, Table.Layout.FixColspan and Table.Layout.FixRowspan require the workspace to be `c_ws`, because the loop asks `cell_exists`, and that checks `c_ws`. On another workspace the source mixes the bounds of two tables.
- Table.Layout.FixColrowspan: the methods state each span as `Grid.Shrink` of its old value. That the result fits, and that a second run changes nothing, is stated once on values by `Grid.ShrinkFits`.
- `FOR_TABLE` and `CUR_CELL` come from table.h, which is not part of this model. They are taken as a loop over every column and, inside it, every row, and as `c_ws->table[current_col][current_row]`.
- The comment of fix_colrowspan (src/table.c:318) promises that no windows overlap. The code tests only the far cell of each span (src/table.c:329-330, 337-338), and the model follows the code; `Grid.ShrinkTestsFarCellOnly` shows the difference.
