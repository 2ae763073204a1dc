/** The state held by the board hook of src/hooks/use-board.ts, the
    operations that set or reset it as a whole (initial state, refresh,
    replace, board delete) and the renumbering shared by the structural
    operations. The React cells `board`, `columns`, `isPersistedRef` and
    `boardRef` become one immutable record; `boardRef` always holds the same
    value as `board`, so it is not kept twice. */
module BoardState {
  import opened Wrappers
  import opened Types
  import opened Db
  import opened JsArray

  // ---------------------------------------------------------------------------
  // Local identifiers
  // ---------------------------------------------------------------------------

  /** Columns that exist only in this client carry ids with this prefix. */
  const LocalPrefix: string := "local-"

  predicate IsLocalId(id: string)
  {
    |LocalPrefix| <= |id| && id[..|LocalPrefix|] == LocalPrefix
  }

  const InitialColumnId: string := "local-initial-todo"
  const InitialColumnTitle: string := "To Do"
  const InitialColumnStamp: string := "2026-01-01T00:00:00.000Z"

  /** A local-only column. `id` is the optional explicit id; an absent or
      empty one is replaced by `local-` followed by the fresh `uuid`. */
  function MakeLocalColumn(title: string, position: int, id: Option<string>, uuid: string, stamp: string)
    : (c: ColumnWithTasks)
    ensures id.None? || id.value == "" ==> IsLocalId(c.id) && c.id[|LocalPrefix|..] == uuid
    ensures id.Some? && id.value != "" ==> c.id == id.value
    ensures c.title == title && c.position == position
    ensures c.board_id == "" && !c.is_collapsed && c.tasks == []
  {
    var chosen := if id.Some? && id.value != "" then id.value else LocalPrefix + uuid;
    ColumnWithTasks(chosen, "", title, position, false, stamp, [])
  }

  /** The placeholder column an empty board shows. */
  function InitialColumn(): (c: ColumnWithTasks)
    ensures IsLocalId(c.id) && c.id == InitialColumnId
    ensures c.title == InitialColumnTitle && c.position == 0
    ensures c.board_id == "" && !c.is_collapsed && c.tasks == []
  {
    ColumnWithTasks(InitialColumnId, "", InitialColumnTitle, 0, false, InitialColumnStamp, [])
  }

  /** A column list, or the placeholder column in place of an empty one. */
  function OrPlaceholder(cols: seq<ColumnWithTasks>): (r: seq<ColumnWithTasks>)
    ensures |r| > 0
    ensures |cols| > 0 ==> r == cols
    ensures |cols| == 0 ==> r == [InitialColumn()]
  {
    if |cols| > 0 then cols else [InitialColumn()]
  }

  // ---------------------------------------------------------------------------
  // State
  // ---------------------------------------------------------------------------

  /** Whether the board and its columns exist remotely. */
  datatype Lifecycle = Unpersisted | Persisted

  datatype State = State(
    slug: string,
    board: Option<Board>,
    lifecycle: Lifecycle,
    columns: seq<ColumnWithTasks>)

  /** The new state an operation leaves and the remote calls and
      "mutation done" callbacks it made, in order. The reply to the call
      at trace index `k` is `oracle(k)`. */
  datatype Outcome = Outcome(state: State, trace: seq<Event>)

  /** What every reachable state satisfies: at least one column is shown,
      and the board is known exactly when it is persisted. */
  predicate Valid(s: State)
  {
    |s.columns| > 0 && (s.lifecycle == Persisted <==> s.board.Some?)
  }

  function LifecycleOf(board: Option<Board>): (l: Lifecycle)
    ensures l == Persisted <==> board.Some?
  {
    if board.Some? then Persisted else Unpersisted
  }

  /** The state the hook starts from. */
  function Initial(slug: string, initialBoard: Option<Board>, initialColumns: seq<ColumnWithTasks>): (s: State)
    ensures Valid(s)
    ensures s.slug == slug && s.board == initialBoard
    ensures |initialColumns| > 0 ==> s.columns == initialColumns
    ensures |initialColumns| == 0 ==> s.columns == [InitialColumn()]
  {
    State(slug, initialBoard, LifecycleOf(initialBoard), OrPlaceholder(initialColumns))
  }

  /** What getFullBoard returns when the board exists. */
  datatype FullBoard = FullBoard(board: Board, columns: seq<ColumnWithTasks>)

  /** The state effect of refreshFromDB, given what the read returned
      (`None` when no board was found). */
  function Refresh(s: State, data: Option<FullBoard>): (r: State)
    ensures data.None? ==> r == s
    ensures data.Some? ==> Valid(r) && r.lifecycle == Persisted && r.board == Some(data.value.board)
    ensures data.Some? ==> r.columns == OrPlaceholder(data.value.columns) && r.slug == s.slug
  {
    if data.None? then s
    else State(s.slug, Some(data.value.board), Persisted, OrPlaceholder(data.value.columns))
  }

  /** replaceState: the state received from another client. */
  function ReplaceState(s: State, newBoard: Option<Board>, newColumns: seq<ColumnWithTasks>): (r: State)
    ensures Valid(r)
    ensures r.board == newBoard && r.slug == s.slug
    ensures r.columns == OrPlaceholder(newColumns)
  {
    State(s.slug, newBoard, LifecycleOf(newBoard), OrPlaceholder(newColumns))
  }

  /** removeBoard: the remote delete when the board is persisted, then the
      reset to an empty unpersisted board. A rejected delete throws before
      the reset, so the state stays as it was. The callback is not fired. */
  function RemoveBoard(s: State, oracle: Oracle): (o: Outcome)
    ensures s.board.Some? && s.lifecycle == Persisted ==>
              o.trace == [Sent(DeleteBoardCall(s.board.value.id))]
    ensures !(s.board.Some? && s.lifecycle == Persisted) ==> o.trace == []
    ensures o.trace == [] || oracle(0).Accepted? ==>
              o.state == State(s.slug, None, Unpersisted, [InitialColumn()])
    ensures o.trace != [] && oracle(0).Rejected? ==> o.state == s
  {
    var reset := State(s.slug, None, Unpersisted, [InitialColumn()]);
    if s.board.Some? && s.lifecycle == Persisted then
      var trace := [Sent(DeleteBoardCall(s.board.value.id))];
      if oracle(0).Accepted? then Outcome(reset, trace) else Outcome(s, trace)
    else Outcome(reset, [])
  }

  /** The whole-state operations keep the state valid. */
  lemma WholeStateOpsKeepValid(s: State, data: Option<FullBoard>, b: Option<Board>,
                               cols: seq<ColumnWithTasks>, oracle: Oracle)
    requires Valid(s)
    ensures Valid(Refresh(s, data))
    ensures Valid(ReplaceState(s, b, cols))
    ensures Valid(RemoveBoard(s, oracle).state)
  {
  }

  /** No two columns share an id. */
  predicate DistinctIds(cols: seq<ColumnWithTasks>)
  {
    forall i, j :: 0 <= i < j < |cols| ==> cols[i].id != cols[j].id
  }

  /** `find((c) => c.id === columnId)` as an index: the first column with
      the id, or -1. */
  function ColumnIndex(cols: seq<ColumnWithTasks>, columnId: string): (r: int)
    ensures -1 <= r < |cols|
    ensures r >= 0 ==> cols[r].id == columnId && forall j :: 0 <= j < r ==> cols[j].id != columnId
    ensures r == -1 <==> forall j :: 0 <= j < |cols| ==> cols[j].id != columnId
  {
    FindIndex(cols, (c: ColumnWithTasks) => c.id == columnId)
  }

  // ---------------------------------------------------------------------------
  // Renumbering
  // ---------------------------------------------------------------------------

  /** Every column's position set to its index, everything else kept. */
  function RenumberColumns(cols: seq<ColumnWithTasks>): (r: seq<ColumnWithTasks>)
    ensures |r| == |cols|
    ensures forall i :: 0 <= i < |r| ==> r[i].position == i
    ensures forall i :: 0 <= i < |r| ==> r[i].(position := cols[i].position) == cols[i]
  {
    seq(|cols|, i requires 0 <= i < |cols| => cols[i].(position := i))
  }

  /** Every task's position set to its index, everything else kept. This
      is `RenumberColumns` for the task record, which has its own type. */
  function RenumberTasks(tasks: seq<Task>): (r: seq<Task>)
    ensures |r| == |tasks|
    ensures forall i :: 0 <= i < |r| ==> r[i].position == i
    ensures forall i :: 0 <= i < |r| ==> r[i].(position := tasks[i].position) == tasks[i]
  {
    seq(|tasks|, i requires 0 <= i < |tasks| => tasks[i].(position := i))
  }

  /** A list whose positions already equal the indices is left alone. */
  lemma RenumberTasksIdentity(tasks: seq<Task>)
    requires forall i :: 0 <= i < |tasks| ==> tasks[i].position == i
    ensures RenumberTasks(tasks) == tasks
  {
    var r := RenumberTasks(tasks);
    assert forall i :: 0 <= i < |r| ==> r[i] == tasks[i];
  }

  /** The columns as plain column records, the shape of the position batch. */
  function AsColumns(cols: seq<ColumnWithTasks>): (r: seq<Column>)
    ensures |r| == |cols|
    ensures forall i :: 0 <= i < |r| ==> WithTasks(r[i], cols[i].tasks) == cols[i]
  {
    seq(|cols|, i requires 0 <= i < |cols| => cols[i].AsColumn())
  }

  // ---------------------------------------------------------------------------
  // The multiset of task ids on a board
  // ---------------------------------------------------------------------------

  /** The ids of a task list, in order. */
  function IdsOf(tasks: seq<Task>): (r: seq<string>)
    ensures |r| == |tasks|
    ensures forall i :: 0 <= i < |r| ==> r[i] == tasks[i].id
  {
    seq(|tasks|, i requires 0 <= i < |tasks| => tasks[i].id)
  }

  function TaskIds(tasks: seq<Task>): multiset<string>
  {
    multiset(IdsOf(tasks))
  }

  function BoardTaskIds(cols: seq<ColumnWithTasks>): multiset<string>
  {
    if |cols| == 0 then multiset{} else TaskIds(cols[0].tasks) + BoardTaskIds(cols[1..])
  }

  lemma TaskIdsConcat(a: seq<Task>, b: seq<Task>)
    ensures TaskIds(a + b) == TaskIds(a) + TaskIds(b)
  {
    assert IdsOf(a + b) == IdsOf(a) + IdsOf(b);
  }

  /** Renumbering changes no id. */
  lemma IdsOfRenumber(tasks: seq<Task>)
    ensures IdsOf(RenumberTasks(tasks)) == IdsOf(tasks)
  {
    var r := RenumberTasks(tasks);
    assert forall i :: 0 <= i < |r| ==> r[i].id == r[i].(position := tasks[i].position).id;
  }

  lemma IdsOfRemoveAt(tasks: seq<Task>, k: nat)
    requires k < |tasks|
    ensures IdsOf(RemoveAt(tasks, k)) == RemoveAt(IdsOf(tasks), k)
  {
  }

  lemma IdsOfInsertAt(tasks: seq<Task>, d: nat, x: Task)
    requires d <= |tasks|
    ensures IdsOf(InsertAt(tasks, d, x)) == InsertAt(IdsOf(tasks), d, x.id)
  {
  }

  /** Replacing one column's tasks swaps that column's ids in the board's
      id multiset. */
  lemma {:induction false} BoardTaskIdsUpdate(cols: seq<ColumnWithTasks>, i: nat, tasks: seq<Task>)
    requires i < |cols|
    ensures BoardTaskIds(cols[i := cols[i].(tasks := tasks)]) + TaskIds(cols[i].tasks)
            == BoardTaskIds(cols) + TaskIds(tasks)
    decreases |cols|
  {
    var u := cols[i := cols[i].(tasks := tasks)];
    var head := TaskIds(cols[0].tasks);
    if i == 0 {
      assert u[1..] == cols[1..];
      assert BoardTaskIds(u) == TaskIds(tasks) + BoardTaskIds(cols[1..]);
      assert BoardTaskIds(cols) == head + BoardTaskIds(cols[1..]);
    } else {
      var tail := cols[1..];
      assert tail[i - 1] == cols[i];
      assert u[1..] == tail[i - 1 := tail[i - 1].(tasks := tasks)];
      assert u[0] == cols[0];
      BoardTaskIdsUpdate(tail, i - 1, tasks);
      assert BoardTaskIds(u) == head + BoardTaskIds(u[1..]);
      assert BoardTaskIds(cols) == head + BoardTaskIds(tail);
      var bu, bt, ti, tn := BoardTaskIds(u[1..]), BoardTaskIds(tail), TaskIds(cols[i].tasks), TaskIds(tasks);
      assert bu + ti == bt + tn;
      assert BoardTaskIds(u) + ti == head + bu + ti;
      assert head + bu + ti == head + (bu + ti);
      assert BoardTaskIds(cols) + tn == head + bt + tn;
    }
  }

}
