/** The handlers of the board page (src/components/board/board.tsx): the
    guard in front of a task drop, the per-column button flags, the
    confirmed deletes and the import flow. The confirmation dialogs are
    the page's own state; toasts and the broadcast to other viewers are
    recorded as results. */
module DesktopBoard {
  import opened Wrappers
  import opened Types
  import opened Db
  import opened JsArray
  import opened BoardState
  import opened BoardColumns
  import opened BoardTasks
  import opened BoardCommands
  import opened Import

  // ---------------------------------------------------------------------------
  // Dropping a dragged task
  // ---------------------------------------------------------------------------

  /** Where a drag starts or ends: the column's id and the index in it. */
  datatype DropLocation = DropLocation(droppableId: string, index: int)

  /** The drag library's report; no destination when dropped outside every
      column. */
  datatype DropResult = DropResult(source: DropLocation, destination: Option<DropLocation>)

  /** onDragEnd: a drop outside every column, or back where it started, asks
      nothing of the store; any other drop becomes a task move from the
      source to the destination. */
  function OnDragEnd(d: DropResult): (c: Option<Command>)
    ensures c.None? <==> d.destination.None? || d.destination.value == d.source
    ensures c.Some? ==> c.value.MoveTaskCmd?
    ensures c.Some? ==> && c.value.sourceColId == d.source.droppableId
                        && c.value.sourceIndex == d.source.index
                        && c.value.destColId == d.destination.value.droppableId
                        && c.value.destIndex == d.destination.value.index
  {
    match d.destination
    case None => None
    case Some(dest) =>
      if d.source.droppableId == dest.droppableId && d.source.index == dest.index then None
      else Some(MoveTaskCmd(d.source.droppableId, dest.droppableId, d.source.index, dest.index))
  }

  /** The drops the guard turns away are the ones whose move would leave
      every column's order as it is: a task dropped where it was picked up
      keeps its place. */
  lemma DropInPlaceSkipped(s: State, d: DropResult, oracle: Oracle)
    requires d.destination == Some(d.source)
    requires var c := ColumnIndex(s.columns, d.source.droppableId); c >= 0 && 0 <= d.source.index < |s.columns[c].tasks|
    ensures OnDragEnd(d).None?
    ensures var c := ColumnIndex(s.columns, d.source.droppableId);
            var moved := MoveTask(s, d.source.droppableId, d.source.droppableId, d.source.index, d.source.index, oracle);
            IdsOf(moved.state.columns[c].tasks) == IdsOf(s.columns[c].tasks)
  {
    MoveTaskInPlace(s, d.source.droppableId, d.source.index, oracle);
  }

  // ---------------------------------------------------------------------------
  // The column buttons
  // ---------------------------------------------------------------------------

  /** Which of a column's buttons are enabled. */
  datatype ColumnFlags = ColumnFlags(canDelete: bool, canShiftLeft: bool, canShiftRight: bool)

  /** The flags of the column at `index` among `n`. */
  function FlagsOf(n: int, index: int): (f: ColumnFlags)
  {
    ColumnFlags(n > 1, index > 0, index < n - 1)
  }

  /** A column's shift-left button sends `moveColumn(index, index - 1)`. */
  function ShiftLeft(index: int): (c: Command)
    ensures c.ShiftColumn? && c.toIndex + 1 == c.fromIndex == index
  {
    ShiftColumn(index, index - 1)
  }

  /** A column's shift-right button sends `moveColumn(index, index + 1)`. */
  function ShiftRight(index: int): (c: Command)
    ensures c.ShiftColumn? && c.toIndex - 1 == c.fromIndex == index
  {
    ShiftColumn(index, index + 1)
  }

  /** Shift-left is enabled exactly on the columns that have a left
      neighbour, and on those it swaps the column with that neighbour. */
  lemma ShiftLeftSwaps(cols: seq<ColumnWithTasks>, i: int)
    requires 0 <= i < |cols|
    ensures FlagsOf(|cols|, i).canShiftLeft <==> i > 0
    ensures i > 0 ==> MovedColumns(cols, ShiftLeft(i).fromIndex, ShiftLeft(i).toIndex)
                      == RenumberColumns(cols[i - 1 := cols[i]][i := cols[i - 1]])
  {
    if i > 0 {
      MoveBackOne(cols, i);
    }
  }

  /** Shift-right is enabled exactly on the columns that have a right
      neighbour, and on those it swaps the column with that neighbour. */
  lemma ShiftRightSwaps(cols: seq<ColumnWithTasks>, i: int)
    requires 0 <= i < |cols|
    ensures FlagsOf(|cols|, i).canShiftRight <==> i + 1 < |cols|
    ensures i + 1 < |cols| ==> MovedColumns(cols, ShiftRight(i).fromIndex, ShiftRight(i).toIndex)
                               == RenumberColumns(cols[i := cols[i + 1]][i + 1 := cols[i]])
  {
    if i + 1 < |cols| {
      MoveForwardOne(cols, i);
    }
  }

  /** Why the first column's shift-left is disabled: `moveColumn(0, -1)`
      would splice the column back in counting from the end, making it the
      next-to-last column rather than leaving it first. */
  lemma UnguardedShiftLeftWraps(cols: seq<ColumnWithTasks>)
    requires |cols| >= 3
    ensures !FlagsOf(|cols|, 0).canShiftLeft
    ensures var r := MovedColumns(cols, 0, -1);
            |r| == |cols| && r[|cols| - 2] == cols[0].(position := |cols| - 2)
  {
    MoveColumnPermutes(cols, 0, -1);
  }

  /** The delete button is enabled exactly when the store would remove the
      column: removeColumn keeps the last column. */
  lemma DeleteFlagMatchesStore(s: State, k: nat, oracle: Oracle)
    requires DistinctIds(s.columns) && k < |s.columns|
    ensures var r := RemoveColumn(s, s.columns[k].id, oracle).state.columns;
            FlagsOf(|s.columns|, k).canDelete <==> |r| == |s.columns| - 1
  {
    if |s.columns| > 1 {
      RemoveColumnRemovesExactly(s, k, oracle);
    }
  }

  // ---------------------------------------------------------------------------
  // Confirmed deletes
  // ---------------------------------------------------------------------------

  /** The page's confirmation state: the task open in the editor, the task
      and the column awaiting delete confirmation. */
  datatype Dialogs = Dialogs(editingTask: Option<Task>, deletingTaskId: Option<string>,
                             deletingColumnId: Option<string>)

  datatype Handled = Handled(outcome: Outcome, dialogs: Dialogs)

  /** A JavaScript string is falsy exactly when it is empty. */
  predicate Pending(id: Option<string>)
  {
    id.Some? && id.value != ""
  }

  /** handleDeleteColumn: the column awaiting confirmation is removed and
      the dialog closed. removeColumn never throws. */
  function HandleDeleteColumn(s: State, d: Dialogs, oracle: Oracle): (h: Handled)
    ensures !Pending(d.deletingColumnId) ==> h == Handled(Outcome(s, []), d)
    ensures Pending(d.deletingColumnId) ==>
              && h.outcome == RemoveColumn(s, d.deletingColumnId.value, oracle)
              && h.dialogs == d.(deletingColumnId := None)
  {
    if !Pending(d.deletingColumnId) then Handled(Outcome(s, []), d)
    else Handled(RemoveColumn(s, d.deletingColumnId.value, oracle), d.(deletingColumnId := None))
  }

  /** handleDeleteTask: the task awaiting confirmation is removed. When the
      delete is accepted the dialog closes, and so does the editor if it
      shows that task. When it is rejected removeTask throws, and both stay
      open (the task is already gone from the screen). */
  function HandleDeleteTask(s: State, d: Dialogs, oracle: Oracle): (h: Handled)
    ensures !Pending(d.deletingTaskId) ==> h == Handled(Outcome(s, []), d)
    ensures Pending(d.deletingTaskId) ==> h.outcome == RemoveTask(s, d.deletingTaskId.value, oracle)
    ensures Pending(d.deletingTaskId) && oracle(0).Rejected? ==> h.dialogs == d
    ensures Pending(d.deletingTaskId) && oracle(0).Accepted? ==>
              && h.dialogs.deletingTaskId.None?
              && h.dialogs.deletingColumnId == d.deletingColumnId
              && (h.dialogs.editingTask.Some? ==> h.dialogs.editingTask.value.id != d.deletingTaskId.value)
              && (d.editingTask.Some? && d.editingTask.value.id != d.deletingTaskId.value ==>
                    h.dialogs.editingTask == d.editingTask)
  {
    if !Pending(d.deletingTaskId) then Handled(Outcome(s, []), d)
    else
      var id := d.deletingTaskId.value;
      var o := RemoveTask(s, id, oracle);
      if oracle(0).Rejected? then Handled(o, d)
      else
        var editing := if d.editingTask.Some? && d.editingTask.value.id == id then None else d.editingTask;
        Handled(o, d.(editingTask := editing, deletingTaskId := None))
  }

  /** After a confirmed, accepted task delete, no column holds the task and
      the editor does not show it. */
  lemma DeletedTaskGone(s: State, d: Dialogs, oracle: Oracle, c: nat)
    requires Pending(d.deletingTaskId) && oracle(0).Accepted? && c < |s.columns|
    ensures var h := HandleDeleteTask(s, d, oracle);
            var id := d.deletingTaskId.value;
            && TaskIds(h.outcome.state.columns[c].tasks)[id] == 0
            && !(h.dialogs.editingTask.Some? && h.dialogs.editingTask.value.id == id)
  {
    var id := d.deletingTaskId.value;
    RemoveTaskSpec(s, id, oracle, c, id + "x");
  }

  /** The board-delete dialog's two flags: shown, and a delete in flight. */
  datatype BoardDialog = BoardDialog(shown: bool, deleting: bool)

  /** handleDeleteBoard: removeBoard, and whatever it does the dialog is
      closed and no longer busy (the `finally` block). */
  function HandleDeleteBoard(s: State, oracle: Oracle): (r: (Outcome, BoardDialog))
    ensures r.1 == BoardDialog(false, false)
    ensures r.0 == RemoveBoard(s, oracle)
  {
    (RemoveBoard(s, oracle), BoardDialog(false, false))
  }

  // ---------------------------------------------------------------------------
  // Importing a file
  // ---------------------------------------------------------------------------

  /** The file picker's outcome: nothing chosen, or a file whose text
      parses (`Some`) or does not (`None`). */
  datatype Picked = NoFile | File(parsed: Option<Document>)

  datatype Toast = Success(title: string) | Failure(title: string, description: string)

  const ImportedToast: string := "Board imported successfully"
  const ImportFailedToast: string := "Import failed"

  /** What the import handler leaves behind: the board state, the calls the
      import sent, whether other viewers were told to resync, and the toast
      shown. */
  datatype ImportEffect = ImportEffect(state: State, trace: seq<Event>, broadcast: bool, toast: Option<Toast>)

  /** handleImport: import the file, then reload the board (`refresh` is
      what getFullBoard gives back, or the error it throws), then tell the
      other viewers and show a success toast. An error thrown anywhere
      shows a failure toast with the error's message, and the steps after
      it do not happen. */
  function HandleImport(s: State, picked: Picked, existing: Option<Board>, existingCols: seq<Column>, oracle: Oracle,
                        refresh: Result<Option<FullBoard>, RawError>): (e: ImportEffect)
    ensures picked.NoFile? ==> e == ImportEffect(s, [], false, None)
    ensures e.broadcast <==> e.toast == Some(Success(ImportedToast))
    ensures e.broadcast ==> picked.File? && refresh.Ok?
                            && ImportBoard(picked.parsed, s.slug, existing, existingCols, oracle).Done?
    ensures e.broadcast ==> e.state == Refresh(s, refresh.value)
    ensures !e.broadcast ==> e.state == s
    ensures picked.File? ==> e.trace == ImportBoard(picked.parsed, s.slug, existing, existingCols, oracle).trace
    ensures picked.File? && ImportBoard(picked.parsed, s.slug, existing, existingCols, oracle).Threw? ==>
              e.toast == Some(Failure(ImportFailedToast,
                                      ImportBoard(picked.parsed, s.slug, existing, existingCols, oracle).message))
    ensures picked.File? && refresh.Err? ==> !e.broadcast && e.toast.Some? && e.toast.value.Failure?
  {
    match picked
    case NoFile => ImportEffect(s, [], false, None)
    case File(parsed) =>
      var run := ImportBoard(parsed, s.slug, existing, existingCols, oracle);
      match run
      case Threw(m, tr) => ImportEffect(s, tr, false, Some(Failure(ImportFailedToast, m)))
      case Done(_, tr) =>
        match refresh
        case Err(err) => ImportEffect(s, tr, false, Some(Failure(ImportFailedToast, ErrorMessage(err))))
        case Ok(data) => ImportEffect(Refresh(s, data), tr, true, Some(Success(ImportedToast)))
  }

  /** A file that is not a valid export changes nothing on the board and
      sends nothing to the store; the toast names the reason. */
  lemma InvalidFileRejected(s: State, d: Option<Document>, existing: Option<Board>, existingCols: seq<Column>,
                            oracle: Oracle, refresh: Result<Option<FullBoard>, RawError>)
    requires d.None? || !ValidDocument(d.value)
    ensures var e := HandleImport(s, File(d), existing, existingCols, oracle, refresh);
            && e.state == s && e.trace == [] && !e.broadcast
            && e.toast == Some(Failure(ImportFailedToast, if d.None? then InvalidJson else InvalidFormat))
  {
  }

  /** When every call is accepted and the reload finds the board, a valid
      file ends with the reloaded board shown as persisted, the other
      viewers told, and the success toast. */
  lemma ValidFileImported(s: State, d: Document, existing: Option<Board>, existingCols: seq<Column>,
                          oracle: Oracle, data: FullBoard)
    requires ValidDocument(d)
    requires forall k :: oracle(k).Accepted?
    ensures var e := HandleImport(s, File(Some(d)), existing, existingCols, oracle, Ok(Some(data)));
            && e.broadcast && e.toast == Some(Success(ImportedToast))
            && Valid(e.state) && e.state.lifecycle == Persisted && e.state.board == Some(data.board)
  {
    ImportSucceeds(d, s.slug, existing, existingCols, oracle);
  }
}
