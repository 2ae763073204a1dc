/** The handlers of the mobile board (src/components/board/mobile-board.tsx):
    one column is shown at a time, at the clamped index of the column
    navigation, and each button becomes at most one store command plus a
    navigation step. */
module MobileBoard {
  import opened Wrappers
  import opened Types
  import opened Db
  import opened JsArray
  import opened BoardState
  import opened BoardColumns
  import opened BoardTasks
  import opened ColumnSwipe
  import opened BoardCommands

  /** What a handler does: the command it sends, if any, and the
      navigation state afterwards. */
  datatype Handled = Handled(command: Option<Command>, nav: Nav)

  /** The index of the column on screen. */
  function Shown(cols: seq<ColumnWithTasks>, nav: Nav): int
  {
    SafeIndex(nav.activeIndex, |cols|)
  }

  /** `columns[safeIndex]`, which is undefined off the list. */
  function ActiveColumn(cols: seq<ColumnWithTasks>, nav: Nav): (r: Option<ColumnWithTasks>)
    ensures r.Some? <==> 0 <= Shown(cols, nav) < |cols|
    ensures r.Some? ==> r.value == cols[Shown(cols, nav)]
  {
    var i := Shown(cols, nav);
    if 0 <= i < |cols| then Some(cols[i]) else None
  }

  /** The index of the first task with the id, or -1. */
  function TaskIndex(tasks: seq<Task>, taskId: string): (r: int)
    ensures -1 <= r < |tasks|
    ensures r >= 0 ==> tasks[r].id == taskId && forall j :: 0 <= j < r ==> tasks[j].id != taskId
    ensures r == -1 <==> forall j :: 0 <= j < |tasks| ==> tasks[j].id != taskId
  {
    FindIndex(tasks, (t: Task) => t.id == taskId)
  }

  /** handleShiftLeft: nothing on the first column; otherwise the column
      swaps with its left neighbour and the view follows it. */
  function ShiftLeft(cols: seq<ColumnWithTasks>, nav: Nav): (h: Handled)
    ensures Shown(cols, nav) == 0 ==> h == Handled(None, nav)
    ensures Shown(cols, nav) != 0 ==>
              var i := Shown(cols, nav);
              h == Handled(Some(ShiftColumn(i, i - 1)), GoTo(nav, |cols|, i - 1))
  {
    var i := Shown(cols, nav);
    if i == 0 then Handled(None, nav)
    else Handled(Some(ShiftColumn(i, i - 1)), GoTo(nav, |cols|, i - 1))
  }

  /** handleShiftRight: nothing on the last column; otherwise the column
      swaps with its right neighbour and the view follows it. */
  function ShiftRight(cols: seq<ColumnWithTasks>, nav: Nav): (h: Handled)
    ensures Shown(cols, nav) >= |cols| - 1 ==> h == Handled(None, nav)
    ensures Shown(cols, nav) < |cols| - 1 ==>
              var i := Shown(cols, nav);
              h == Handled(Some(ShiftColumn(i, i + 1)), GoTo(nav, |cols|, i + 1))
  {
    var i := Shown(cols, nav);
    if i >= |cols| - 1 then Handled(None, nav)
    else Handled(Some(ShiftColumn(i, i + 1)), GoTo(nav, |cols|, i + 1))
  }

  /** handleDeleteColumn: asks to delete the shown column and, unless it is
      the first, shows the one to its left straight away. */
  function DeleteColumn(cols: seq<ColumnWithTasks>, nav: Nav): (h: Handled)
    ensures ActiveColumn(cols, nav).None? ==> h == Handled(None, nav)
    ensures ActiveColumn(cols, nav).Some? ==>
              && h.command == Some(RequestDeleteColumn(cols[Shown(cols, nav)].id))
              && h.nav == if Shown(cols, nav) > 0 then GoTo(nav, |cols|, Shown(cols, nav) - 1) else nav
  {
    var active := ActiveColumn(cols, nav);
    if active.None? then Handled(None, nav)
    else
      var i := Shown(cols, nav);
      Handled(Some(RequestDeleteColumn(active.value.id)), if i > 0 then GoTo(nav, |cols|, i - 1) else nav)
  }

  /** handleMoveTaskToColumn: the task goes to the end of the target column;
      nothing happens when the task is not in the shown column or no column
      has the target id. */
  function MoveTaskToColumn(cols: seq<ColumnWithTasks>, nav: Nav, taskId: string, targetColumnId: string)
    : (c: Option<Command>)
    ensures c.Some? <==>
              && ActiveColumn(cols, nav).Some?
              && TaskIndex(ActiveColumn(cols, nav).value.tasks, taskId) >= 0
              && ColumnIndex(cols, targetColumnId) >= 0
    ensures c.Some? ==>
              var active := ActiveColumn(cols, nav).value;
              c.value == MoveTaskCmd(active.id, targetColumnId, TaskIndex(active.tasks, taskId),
                                     |cols[ColumnIndex(cols, targetColumnId)].tasks|)
  {
    var active := ActiveColumn(cols, nav);
    if active.None? then None
    else
      var sourceIndex := TaskIndex(active.value.tasks, taskId);
      if sourceIndex == -1 then None
      else
        var t := ColumnIndex(cols, targetColumnId);
        if t < 0 then None
        else Some(MoveTaskCmd(active.value.id, targetColumnId, sourceIndex, |cols[t].tasks|))
  }

  /** handleMoveTaskUp: nothing for the first or a missing task; otherwise
      one place up within the shown column. */
  function MoveTaskUp(cols: seq<ColumnWithTasks>, nav: Nav, taskId: string): (c: Option<Command>)
    ensures c.Some? <==>
              ActiveColumn(cols, nav).Some? && TaskIndex(ActiveColumn(cols, nav).value.tasks, taskId) > 0
    ensures c.Some? ==>
              var active := ActiveColumn(cols, nav).value;
              var k := TaskIndex(active.tasks, taskId);
              c.value == MoveTaskCmd(active.id, active.id, k, k - 1)
  {
    var active := ActiveColumn(cols, nav);
    if active.None? then None
    else
      var k := TaskIndex(active.value.tasks, taskId);
      if k <= 0 then None else Some(MoveTaskCmd(active.value.id, active.value.id, k, k - 1))
  }

  /** handleMoveTaskDown: nothing for the last or a missing task; otherwise
      one place down within the shown column. */
  function MoveTaskDown(cols: seq<ColumnWithTasks>, nav: Nav, taskId: string): (c: Option<Command>)
    ensures c.Some? <==>
              && ActiveColumn(cols, nav).Some?
              && 0 <= TaskIndex(ActiveColumn(cols, nav).value.tasks, taskId)
                    < |ActiveColumn(cols, nav).value.tasks| - 1
    ensures c.Some? ==>
              var active := ActiveColumn(cols, nav).value;
              var k := TaskIndex(active.tasks, taskId);
              c.value == MoveTaskCmd(active.id, active.id, k, k + 1)
  {
    var active := ActiveColumn(cols, nav);
    if active.None? then None
    else
      var k := TaskIndex(active.value.tasks, taskId);
      if k == -1 || k >= |active.value.tasks| - 1 then None
      else Some(MoveTaskCmd(active.value.id, active.value.id, k, k + 1))
  }

  // ---------------------------------------------------------------------------
  // What the commands do to the board
  // ---------------------------------------------------------------------------

  /** With distinct ids, the shown column is the first with its id. */
  lemma ShownIsFound(cols: seq<ColumnWithTasks>, i: nat)
    requires DistinctIds(cols) && i < |cols|
    ensures ColumnIndex(cols, cols[i].id) == i
  {
  }

  /** Shifting left keeps the same column on screen: after the store moves
      it, the view shows it at its new place, one to the left. */
  lemma ShiftLeftFollowsColumn(cols: seq<ColumnWithTasks>, nav: Nav)
    requires nav.activeIndex >= 0 && |cols| >= 1 && Shown(cols, nav) > 0
    ensures var i := Shown(cols, nav);
            var h := ShiftLeft(cols, nav);
            var r := MovedColumns(cols, h.command.value.fromIndex, h.command.value.toIndex);
            && h.command == Some(ShiftColumn(i, i - 1)) && h.nav.direction == Back
            && Shown(r, h.nav) == i - 1
            && r[i - 1] == cols[i].(position := i - 1)
  {
    var n := |cols|;
    var i := Shown(cols, nav);
    var h := ShiftLeft(cols, nav);
    assert h == Handled(Some(ShiftColumn(i, i - 1)), GoTo(nav, n, i - 1));
    assert h.nav.activeIndex == i - 1;
    MoveColumnPermutes(cols, i, i - 1);
  }

  /** Shifting right keeps the same column on screen, one to the right. */
  lemma ShiftRightFollowsColumn(cols: seq<ColumnWithTasks>, nav: Nav)
    requires nav.activeIndex >= 0 && Shown(cols, nav) < |cols| - 1
    ensures var i := Shown(cols, nav);
            var h := ShiftRight(cols, nav);
            var r := MovedColumns(cols, h.command.value.fromIndex, h.command.value.toIndex);
            && h.command == Some(ShiftColumn(i, i + 1)) && h.nav.direction == Forward
            && Shown(r, h.nav) == i + 1
            && r[i + 1] == cols[i].(position := i + 1)
  {
    var n := |cols|;
    var i := Shown(cols, nav);
    var h := ShiftRight(cols, nav);
    assert h == Handled(Some(ShiftColumn(i, i + 1)), GoTo(nav, n, i + 1));
    assert h.nav.activeIndex == i + 1;
    assert SpliceStart(n - 1, i + 1) == i + 1;
    MoveColumnPermutes(cols, i, i + 1);
  }

  /** Once the requested delete is confirmed, the view shows the column that
      was to the left of the deleted one, or, when the first column was
      deleted, the column that followed it. */
  lemma DeleteColumnShowsNeighbour(s: State, nav: Nav, oracle: Oracle)
    requires DistinctIds(s.columns) && |s.columns| > 1 && nav.activeIndex >= 0
    ensures var i := Shown(s.columns, nav);
            var h := DeleteColumn(s.columns, nav);
            var r := RemoveColumn(s, h.command.value.columnId, oracle).state.columns;
            && h.command == Some(RequestDeleteColumn(s.columns[i].id))
            && |r| == |s.columns| - 1
            && (i > 0 ==> Shown(r, h.nav) == i - 1 && r[i - 1] == s.columns[i - 1].(position := i - 1))
            && (i == 0 ==> Shown(r, h.nav) == 0 && r[0] == s.columns[1].(position := 0))
  {
    var i := Shown(s.columns, nav);
    var h := DeleteColumn(s.columns, nav);
    assert h.command == Some(RequestDeleteColumn(s.columns[i].id));
    RemoveColumnRemovesExactly(s, i, oracle);
    if i > 0 {
      assert h.nav.activeIndex == i - 1;
    } else {
      assert nav.activeIndex == 0;
    }
  }

  /** The view moves left as soon as the delete is requested, so it has
      moved even when the confirmation is then cancelled. */
  lemma DeleteRequestNavigatesAtOnce(cols: seq<ColumnWithTasks>, nav: Nav)
    requires nav.activeIndex >= 0 && 0 < Shown(cols, nav) < |cols|
    ensures DeleteColumn(cols, nav).command.value.RequestDeleteColumn?
    ensures Shown(cols, DeleteColumn(cols, nav).nav) == Shown(cols, nav) - 1
  {
  }

  /** "Move to column" appends: the command moves the task from the shown
      column to the target's current task count, and the task ends up last
      in the target column, carrying the target's id. */
  lemma MoveToColumnAppends(cols: seq<ColumnWithTasks>, nav: Nav, taskId: string, targetColumnId: string)
    requires DistinctIds(cols)
    requires MoveTaskToColumn(cols, nav, taskId, targetColumnId).Some?
    ensures var i := Shown(cols, nav);
            var t := ColumnIndex(cols, targetColumnId);
            var k := TaskIndex(cols[i].tasks, taskId);
            var dest := |cols[t].tasks|;
            var r := MovedTasks(cols, cols[i].id, targetColumnId, k, dest);
            var last := |r[t].tasks| - 1;
            && MoveTaskToColumn(cols, nav, taskId, targetColumnId).value
               == MoveTaskCmd(cols[i].id, targetColumnId, k, dest)
            && |r[t].tasks| == dest + (if t == i then 0 else 1)
            && r[t].tasks[last] == cols[i].tasks[k].(column_id := targetColumnId, position := last)
  {
    var i := Shown(cols, nav);
    AppendMove(cols, i, ColumnIndex(cols, targetColumnId), TaskIndex(cols[i].tasks, taskId));
  }

  /** Moving the task at `k` of column `i` to index "task count" of column
      `t` puts it last there. */
  lemma AppendMove(cols: seq<ColumnWithTasks>, i: nat, t: nat, k: nat)
    requires DistinctIds(cols) && i < |cols| && t < |cols| && k < |cols[i].tasks|
    ensures var dest := |cols[t].tasks|;
            var r := MovedTasks(cols, cols[i].id, cols[t].id, k, dest);
            var last := |r[t].tasks| - 1;
            && |r[t].tasks| == dest + (if t == i then 0 else 1)
            && r[t].tasks[last] == cols[i].tasks[k].(column_id := cols[t].id, position := last)
  {
    ShownIsFound(cols, i);
    ShownIsFound(cols, t);
  }

  /** The store's effect of moving a task within one column from index `k`
      to `d`, as the ids in order. */
  lemma MoveWithinIds(cols: seq<ColumnWithTasks>, c: nat, k: nat, d: int)
    requires c < |cols| && DistinctIds(cols) && k < |cols[c].tasks|
    requires 0 <= d < |cols[c].tasks|
    ensures var src := cols[c].tasks;
            var r := MovedTasks(cols, cols[c].id, cols[c].id, k, d)[c].tasks;
            IdsOf(r) == InsertAt(RemoveAt(IdsOf(src), k), d, src[k].id)
  {
    ShownIsFound(cols, c);
    var p := MovePlan(c, c, k, d);
    assert PlanMove(cols, cols[c].id, cols[c].id, k, d) == Some(p);
    MoveWithinKeepsOrder(cols, cols[c].id, p);
  }

  /** Moving a task up sends a move to the index above, which swaps the
      task with the one above it. */
  lemma MoveUpSwaps(cols: seq<ColumnWithTasks>, nav: Nav, taskId: string)
    requires DistinctIds(cols) && MoveTaskUp(cols, nav, taskId).Some?
    ensures var i := Shown(cols, nav);
            var k := TaskIndex(cols[i].tasks, taskId);
            MoveTaskUp(cols, nav, taskId).value == MoveTaskCmd(cols[i].id, cols[i].id, k, k - 1)
    ensures var i := Shown(cols, nav);
            var src := cols[i].tasks;
            var k := TaskIndex(src, taskId);
            IdsOf(MovedTasks(cols, cols[i].id, cols[i].id, k, k - 1)[i].tasks) == IdsOf(src)[k - 1 := src[k].id][k := src[k - 1].id]
    ensures var i := Shown(cols, nav);
            var k := TaskIndex(cols[i].tasks, taskId);
            var r := MovedTasks(cols, cols[i].id, cols[i].id, k, k - 1)[i].tasks;
            forall j :: 0 <= j < |r| ==> r[j].position == j
  {
    var i := Shown(cols, nav);
    var k := TaskIndex(cols[i].tasks, taskId);
    var src := cols[i].tasks;
    var r := MovedTasks(cols, cols[i].id, cols[i].id, k, k - 1)[i].tasks;
    assert ActiveColumn(cols, nav) == Some(cols[i]);
    assert 0 < k < |cols[i].tasks|;
    assert IdsOf(r) == IdsOf(src)[k - 1 := src[k].id][k := src[k - 1].id] by {
      MoveUpAt(cols, i, k);
    }
    assert forall j :: 0 <= j < |r| ==> r[j].position == j by {
      MoveUpAt(cols, i, k);
    }
  }

  /** Moving a task down sends a move to the index below, which swaps the
      task with the one below it. */
  lemma MoveDownSwaps(cols: seq<ColumnWithTasks>, nav: Nav, taskId: string)
    requires DistinctIds(cols) && MoveTaskDown(cols, nav, taskId).Some?
    ensures var i := Shown(cols, nav);
            var k := TaskIndex(cols[i].tasks, taskId);
            MoveTaskDown(cols, nav, taskId).value == MoveTaskCmd(cols[i].id, cols[i].id, k, k + 1)
    ensures var i := Shown(cols, nav);
            var src := cols[i].tasks;
            var k := TaskIndex(src, taskId);
            IdsOf(MovedTasks(cols, cols[i].id, cols[i].id, k, k + 1)[i].tasks) == IdsOf(src)[k := src[k + 1].id][k + 1 := src[k].id]
    ensures var i := Shown(cols, nav);
            var k := TaskIndex(cols[i].tasks, taskId);
            var r := MovedTasks(cols, cols[i].id, cols[i].id, k, k + 1)[i].tasks;
            forall j :: 0 <= j < |r| ==> r[j].position == j
  {
    var i := Shown(cols, nav);
    var k := TaskIndex(cols[i].tasks, taskId);
    var src := cols[i].tasks;
    var r := MovedTasks(cols, cols[i].id, cols[i].id, k, k + 1)[i].tasks;
    assert ActiveColumn(cols, nav) == Some(cols[i]);
    assert 0 <= k && k + 1 < |cols[i].tasks|;
    assert IdsOf(r) == IdsOf(src)[k := src[k + 1].id][k + 1 := src[k].id] by {
      MoveDownAt(cols, i, k);
    }
    assert forall j :: 0 <= j < |r| ==> r[j].position == j by {
      MoveDownAt(cols, i, k);
    }
  }

  /** Taking a task out and putting it one place earlier swaps its id with
      its predecessor's. */
  lemma SwapBackIds(src: seq<Task>, k: nat)
    requires 0 < k < |src|
    ensures InsertAt(RemoveAt(IdsOf(src), k), k - 1, src[k].id) == IdsOf(src)[k - 1 := src[k].id][k := src[k - 1].id]
  {
    MoveBackOne(IdsOf(src), k);
  }

  /** Taking a task out and putting it one place later swaps its id with
      its successor's. */
  lemma SwapForwardIds(src: seq<Task>, k: nat)
    requires k + 1 < |src|
    ensures InsertAt(RemoveAt(IdsOf(src), k), k + 1, src[k].id) == IdsOf(src)[k := src[k + 1].id][k + 1 := src[k].id]
  {
    MoveForwardOne(IdsOf(src), k);
  }

  /** Moving the task at `k` of column `c` one place up swaps its id with its
      predecessor's and leaves positions equal to indices. */
  lemma MoveUpAt(cols: seq<ColumnWithTasks>, c: nat, k: nat)
    requires c < |cols| && DistinctIds(cols) && 0 < k < |cols[c].tasks|
    ensures var src := cols[c].tasks;
            var id := cols[c].id;
            var r := MovedTasks(cols, id, id, k, k - 1)[c].tasks;
            && IdsOf(r) == IdsOf(src)[k - 1 := src[k].id][k := src[k - 1].id]
            && forall j :: 0 <= j < |r| ==> r[j].position == j
  {
    MoveWithinIds(cols, c, k, k - 1);
    SwapBackIds(cols[c].tasks, k);
    SameColumnRenumbered(cols, c, k, k - 1);
  }

  /** Moving the task at `k` of column `c` one place down swaps its id with its
      successor's and leaves positions equal to indices. */
  lemma MoveDownAt(cols: seq<ColumnWithTasks>, c: nat, k: nat)
    requires c < |cols| && DistinctIds(cols) && k + 1 < |cols[c].tasks|
    ensures var src := cols[c].tasks;
            var id := cols[c].id;
            var r := MovedTasks(cols, id, id, k, k + 1)[c].tasks;
            && IdsOf(r) == IdsOf(src)[k := src[k + 1].id][k + 1 := src[k].id]
            && forall j :: 0 <= j < |r| ==> r[j].position == j
  {
    MoveWithinIds(cols, c, k, k + 1);
    SwapForwardIds(cols[c].tasks, k);
    SameColumnRenumbered(cols, c, k, k + 1);
  }

  /** A move within one column leaves its positions equal to indices. */
  lemma SameColumnRenumbered(cols: seq<ColumnWithTasks>, c: nat, k: nat, d: int)
    requires c < |cols| && DistinctIds(cols) && k < |cols[c].tasks|
    requires 0 <= d < |cols[c].tasks|
    ensures var r := MovedTasks(cols, cols[c].id, cols[c].id, k, d)[c].tasks;
            forall j :: 0 <= j < |r| ==> r[j].position == j
  {
    ShownIsFound(cols, c);
  }
}
