/** addTask of the board hook (src/hooks/use-board.ts), with its two
    remote paths. On an unpersisted board the first task persists
    everything (persistBoard): the board, then every held column in list
    order, and only then the task under the column's new id. On a
    persisted board a column that is still local is created first (the
    recovery path). A rejected call throws: the steps after it do not
    happen and nothing done before it is undone. */
module BoardAddTask {
  import opened Wrappers
  import opened Types
  import opened Db
  import opened BoardState

  // ---------------------------------------------------------------------------
  // persistBoard
  // ---------------------------------------------------------------------------

  /** Creating the held columns from index `i` on: the calls sent, the ids
      the accepted ones got, and whether all of them were accepted. */
  datatype ColumnsRun = ColumnsRun(trace: seq<Event>, ids: seq<string>, complete: bool)

  /** The column create sent for the column at index `i`. */
  function CreateColumnEvent(cols: seq<ColumnWithTasks>, i: nat, boardId: string): Event
    requires i < |cols|
  {
    Sent(CreateColumnCall(CreateColumnPayload(boardId, cols[i].title, i)))
  }

  /** The loop of persistBoard from index `i` on; `replies(j)` is the
      reply to the create of column `j`. */
  function CreateColumnsFrom(cols: seq<ColumnWithTasks>, i: nat, boardId: string, replies: Oracle)
    : (r: ColumnsRun)
    requires i <= |cols|
    ensures |r.ids| <= |r.trace| <= |cols| - i
    ensures forall j :: i <= j < i + |r.trace| ==> r.trace[j - i] == CreateColumnEvent(cols, j, boardId)
    ensures forall j :: i <= j < i + |r.ids| ==> replies(j).Accepted? && r.ids[j - i] == replies(j).newId
    ensures r.complete <==> forall j :: i <= j < |cols| ==> replies(j).Accepted?
    ensures r.complete ==> |r.ids| == |r.trace| == |cols| - i
    ensures !r.complete ==> |r.trace| == |r.ids| + 1 && replies(i + |r.ids|).Rejected?
    decreases |cols| - i
  {
    if i == |cols| then ColumnsRun([], [], true)
    else
      var call := CreateColumnEvent(cols, i, boardId);
      var reply := replies(i);
      if reply.Rejected? then ColumnsRun([call], [], false)
      else
        var rest := CreateColumnsFrom(cols, i + 1, boardId, replies);
        ColumnsRun([call] + rest.trace, [reply.newId] + rest.ids, rest.complete)
  }

  /** The local → remote id map persistBoard builds: `idMap.set(col.id,
      dbCol.id)` in list order, so a later column with the same id wins. */
  function IdMap(cols: seq<ColumnWithTasks>, ids: seq<string>): (m: map<string, string>)
    requires |ids| == |cols|
    ensures forall k :: k in m <==> exists j :: 0 <= j < |cols| && cols[j].id == k
    decreases |cols|
  {
    if |cols| == 0 then map[]
    else
      var n := |cols| - 1;
      var m := IdMap(cols[..n], ids[..n]);
      m[cols[n].id := ids[n]]
  }

  /** With distinct column ids, each column's id maps to the id its own
      create returned. */
  lemma {:induction false} IdMapDistinct(cols: seq<ColumnWithTasks>, ids: seq<string>, j: nat)
    requires |ids| == |cols| && DistinctIds(cols) && j < |cols|
    ensures cols[j].id in IdMap(cols, ids) && IdMap(cols, ids)[cols[j].id] == ids[j]
    decreases |cols|
  {
    var n := |cols| - 1;
    if j < n {
      assert DistinctIds(cols[..n]);
      assert cols[..n][j] == cols[j];
      IdMapDistinct(cols[..n], ids[..n], j);
    }
  }

  /** The remote id a local column id maps to, or the id itself when the
      map has no entry for it. */
  function Lookup(m: map<string, string>, id: string): (r: string)
    ensures id in m ==> r == m[id]
    ensures id !in m ==> r == id
  {
    if id in m then m[id] else id
  }

  /** The state update after the bootstrap's task create: every column
      takes its remote id and the board's id, and the column whose new id
      is the task's column gets the task appended. */
  function Remap(cols: seq<ColumnWithTasks>, m: map<string, string>, boardId: string, dbColumnId: string,
                 task: Task): (r: seq<ColumnWithTasks>)
    ensures |r| == |cols|
    ensures forall i :: 0 <= i < |r| ==>
              && r[i].id == Lookup(m, cols[i].id) && r[i].board_id == boardId
              && r[i].(id := cols[i].id, board_id := cols[i].board_id, tasks := cols[i].tasks) == cols[i]
              && r[i].tasks == if r[i].id == dbColumnId then cols[i].tasks + [task] else cols[i].tasks
  {
    seq(|cols|, i requires 0 <= i < |cols| =>
      var newId := Lookup(m, cols[i].id);
      var updated := cols[i].(id := newId, board_id := boardId);
      if newId == dbColumnId then updated.(tasks := cols[i].tasks + [task]) else updated)
  }

  /** The create of a new task at the end of a column. */
  function TaskCreate(columnId: string, title: string, priority: Priority, position: int): (p: CreateTaskParams)
    ensures p.column_id == columnId && p.title == title && p.priority == priority
    ensures p.position == position && p.description.None?
  {
    CreateTaskParamsOf(CreateTaskPayload(columnId, title, None, Some(priority), position))
  }

  /** The number of tasks of the first column with the id, or 0 when there
      is none: the new task's position. */
  function NextTaskPosition(cols: seq<ColumnWithTasks>, columnId: string): (n: nat)
    ensures ColumnIndex(cols, columnId) >= 0 ==> n == |cols[ColumnIndex(cols, columnId)].tasks|
    ensures ColumnIndex(cols, columnId) < 0 ==> n == 0
  {
    var t := ColumnIndex(cols, columnId);
    if t >= 0 then |cols[t].tasks| else 0
  }

  /** Every column create of a bootstrap over `n` columns is accepted. */
  predicate ColumnsAccepted(oracle: Oracle, n: nat)
  {
    forall j :: 1 <= j <= n ==> oracle(j).Accepted?
  }

  lemma ColumnRepliesAccepted(oracle: Oracle, n: nat)
    ensures (forall j :: 0 <= j < n ==> ColumnReplies(oracle)(j).Accepted?) <==> ColumnsAccepted(oracle, n)
  {
    var r := ColumnReplies(oracle);
    if ColumnsAccepted(oracle, n) {
      forall j | 0 <= j < n ensures r(j).Accepted? {
        assert r(j) == oracle(1 + j);
      }
    }
    if forall j :: 0 <= j < n ==> r(j).Accepted? {
      forall j | 1 <= j <= n ensures oracle(j).Accepted? {
        assert r(j - 1) == oracle(j);
      }
    }
  }

  /** The replies to the column creates, which follow the board create. */
  function ColumnReplies(oracle: Oracle): (r: Oracle)
    ensures forall j: nat :: r(j) == oracle(1 + j)
  {
    (j: nat) => oracle(1 + j)
  }

  /** addTask on an unpersisted board. */
  function Bootstrap(s: State, columnId: string, title: string, priority: Priority, oracle: Oracle): (o: Outcome)
    requires s.lifecycle == Unpersisted
    ensures |o.trace| > 0 && o.trace[0] == Sent(CreateBoardCall(s.slug))
    ensures oracle(0).Rejected? ==> o == Outcome(s, [o.trace[0]])
    ensures o.state.lifecycle == Persisted ==> oracle(0).Accepted? && ColumnsAccepted(oracle, |s.columns|)
    ensures o.state.lifecycle != Persisted ==> o.state == s
    ensures o.state.slug == s.slug && |o.state.columns| == |s.columns|
  {
    var cols := s.columns;
    var boardCall := Sent(CreateBoardCall(s.slug));
    if oracle(0).Rejected? then Outcome(s, [boardCall])
    else
      var board := CreatedBoard(s.slug, oracle(0));
      var run := CreateColumnsFrom(cols, 0, board.id, ColumnReplies(oracle));
      ColumnRepliesAccepted(oracle, |cols|);
      if !run.complete then Outcome(s, [boardCall] + run.trace)
      else
        var idMap := IdMap(cols, run.ids);
        var persisted := s.(board := Some(board), lifecycle := Persisted);
        var dbColumnId := Lookup(idMap, columnId);
        var params := TaskCreate(dbColumnId, title, priority, NextTaskPosition(cols, columnId));
        var trace := [boardCall] + run.trace + [Sent(CreateTaskCall(params))];
        var reply := oracle(1 + |cols|);
        if reply.Rejected? then Outcome(persisted, trace)
        else
          var task := CreatedTask(params, reply);
          Outcome(persisted.(columns := Remap(cols, idMap, board.id, dbColumnId, task)), trace + [MutationDone])
  }

  /** Whether every call of a bootstrap is accepted: the board, each
      column and the task. */
  predicate AllAccepted(oracle: Oracle, n: nat)
  {
    forall j :: 0 <= j <= n + 1 ==> oracle(j).Accepted?
  }

  /** When every column create is accepted, the loop completes and each
      held column maps to the id its own create returned. */
  lemma BootstrapIds(cols: seq<ColumnWithTasks>, boardId: string, oracle: Oracle)
    requires DistinctIds(cols) && ColumnsAccepted(oracle, |cols|)
    ensures var run := CreateColumnsFrom(cols, 0, boardId, ColumnReplies(oracle));
            && run.complete && |run.trace| == |cols|
            && (forall j :: 0 <= j < |cols| ==> run.trace[j] == CreateColumnEvent(cols, j, boardId))
            && forall j :: 0 <= j < |cols| ==> Lookup(IdMap(cols, run.ids), cols[j].id) == oracle(1 + j).newId
  {
    var replies := ColumnReplies(oracle);
    var run := CreateColumnsFrom(cols, 0, boardId, replies);
    ColumnRepliesAccepted(oracle, |cols|);
    forall j | 0 <= j < |cols| ensures run.trace[j] == CreateColumnEvent(cols, j, boardId) {
      assert run.trace[j - 0] == CreateColumnEvent(cols, j, boardId);
    }
    forall j | 0 <= j < |cols| ensures Lookup(IdMap(cols, run.ids), cols[j].id) == oracle(1 + j).newId {
      assert run.ids[j - 0] == replies(j).newId;
      IdMapDistinct(cols, run.ids, j);
    }
  }

  /** A bootstrap where every call succeeds sends the board create, one
      column create per held column in list order with its index as
      position, the task create under the target column's new id at the
      old task count, and then fires the callback. */
  lemma BootstrapSucceedsTrace(s: State, t: nat, title: string, priority: Priority, oracle: Oracle)
    requires s.lifecycle == Unpersisted && DistinctIds(s.columns) && t < |s.columns|
    requires AllAccepted(oracle, |s.columns|)
    ensures var o := Bootstrap(s, s.columns[t].id, title, priority, oracle);
            var n := |s.columns|;
            var boardId := oracle(0).newId;
            && o.state.lifecycle == Persisted && o.state.board == Some(CreatedBoard(s.slug, oracle(0)))
            && |o.trace| == n + 3
            && o.trace[0] == Sent(CreateBoardCall(s.slug))
            && (forall j :: 0 <= j < n ==> o.trace[1 + j] == CreateColumnEvent(s.columns, j, boardId))
            && o.trace[n + 1] == Sent(CreateTaskCall(TaskCreate(oracle(1 + t).newId, title, priority,
                                                                |s.columns[t].tasks|)))
            && o.trace[n + 2] == MutationDone
  {
    var cols := s.columns;
    var boardId := oracle(0).newId;
    assert oracle(0).Accepted? && oracle(1 + |cols|).Accepted?;
    assert ColumnsAccepted(oracle, |cols|);
    BootstrapIds(cols, boardId, oracle);
    assert ColumnIndex(cols, cols[t].id) == t;
  }

  /** After a bootstrap where every call succeeds, every column carries its
      new id and the board id, and only the target column gained the task,
      appended after its old tasks. */
  lemma BootstrapSucceedsColumns(s: State, t: nat, title: string, priority: Priority, oracle: Oracle)
    requires s.lifecycle == Unpersisted && DistinctIds(s.columns) && t < |s.columns|
    requires AllAccepted(oracle, |s.columns|)
    requires forall i, j :: 1 <= i < j <= |s.columns| ==> oracle(i).newId != oracle(j).newId
    ensures var o := Bootstrap(s, s.columns[t].id, title, priority, oracle);
            var n := |s.columns|;
            var newId := oracle(1 + t).newId;
            && (forall j :: 0 <= j < n ==>
                  o.state.columns[j].id == oracle(1 + j).newId && o.state.columns[j].board_id == oracle(0).newId)
            && (forall j :: 0 <= j < n && j != t ==> o.state.columns[j].tasks == s.columns[j].tasks)
            && o.state.columns[t].tasks[..|s.columns[t].tasks|] == s.columns[t].tasks
            && |o.state.columns[t].tasks| == |s.columns[t].tasks| + 1
            && var task := o.state.columns[t].tasks[|s.columns[t].tasks|];
               task.column_id == newId && task.position == |s.columns[t].tasks|
               && task.title == title && task.priority == priority
  {
    var cols := s.columns;
    var boardId := oracle(0).newId;
    assert oracle(0).Accepted? && oracle(1 + |cols|).Accepted?;
    assert ColumnsAccepted(oracle, |cols|);
    BootstrapIds(cols, boardId, oracle);
    assert ColumnIndex(cols, cols[t].id) == t;
  }

  /** The persisted flag is set only once the board and every column were
      created; a failure before that leaves the state exactly as it was. */
  lemma BootstrapPersistsOnlyComplete(s: State, columnId: string, title: string, priority: Priority,
                                      oracle: Oracle, j: nat)
    requires s.lifecycle == Unpersisted
    requires j <= |s.columns| && oracle(j).Rejected?
    ensures Bootstrap(s, columnId, title, priority, oracle).state == s
  {
    if j > 0 {
      assert ColumnReplies(oracle)(j - 1) == oracle(j);
      ColumnRepliesAccepted(oracle, |s.columns|);
    }
  }

  /** A rejected task create after a complete persist: the board is
      persisted, but the columns keep their local ids and no task is
      added. Nothing is rolled back. */
  lemma BootstrapTaskRejected(s: State, columnId: string, title: string, priority: Priority, oracle: Oracle)
    requires s.lifecycle == Unpersisted
    requires forall j :: 0 <= j <= |s.columns| ==> oracle(j).Accepted?
    requires oracle(1 + |s.columns|).Rejected?
    ensures var o := Bootstrap(s, columnId, title, priority, oracle);
            && o.state == s.(board := Some(CreatedBoard(s.slug, oracle(0))), lifecycle := Persisted)
            && |o.trace| == |s.columns| + 2
            && MutationDone !in o.trace
  {
    var o := Bootstrap(s, columnId, title, priority, oracle);
    var replies := ColumnReplies(oracle);
    var run := CreateColumnsFrom(s.columns, 0, oracle(0).newId, replies);
    ColumnRepliesAccepted(oracle, |s.columns|);
    assert run.complete;
    forall k | 0 <= k < |run.trace| ensures run.trace[k].Sent? {
      assert run.trace[k - 0] == CreateColumnEvent(s.columns, k, oracle(0).newId);
    }
  }

  // ---------------------------------------------------------------------------
  // The persisted path
  // ---------------------------------------------------------------------------

  /** Every column with the local id takes the created id; the other
      columns are left as they are. */
  function RenameId(cols: seq<ColumnWithTasks>, columnId: string, newId: string): (r: seq<ColumnWithTasks>)
    ensures |r| == |cols|
    ensures forall i :: 0 <= i < |r| ==> r[i] == if cols[i].id == columnId then cols[i].(id := newId) else cols[i]
  {
    seq(|cols|, i requires 0 <= i < |cols| => if cols[i].id == columnId then cols[i].(id := newId) else cols[i])
  }

  /** The final update: columns with the original or the target id take
      the target id and get the task appended. */
  function AppendTask(cols: seq<ColumnWithTasks>, columnId: string, targetId: string, task: Task)
    : (r: seq<ColumnWithTasks>)
    ensures |r| == |cols|
    ensures forall i :: 0 <= i < |r| ==>
              (cols[i].id == columnId || cols[i].id == targetId) ==>
                r[i] == cols[i].(id := targetId, tasks := cols[i].tasks + [task])
    ensures forall i :: 0 <= i < |r| ==>
              !(cols[i].id == columnId || cols[i].id == targetId) ==> r[i] == cols[i]
  {
    seq(|cols|, i requires 0 <= i < |cols| =>
      if cols[i].id == columnId || cols[i].id == targetId
      then cols[i].(id := targetId, tasks := cols[i].tasks + [task])
      else cols[i])
  }

  /** Whether the recovery path runs: a local column id on a persisted
      board whose board record and column are both at hand. */
  predicate Recovers(s: State, columnId: string)
  {
    IsLocalId(columnId) && s.board.Some? && ColumnIndex(s.columns, columnId) >= 0
  }

  /** addTask on a persisted board. */
  function AddTaskPersisted(s: State, columnId: string, title: string, priority: Priority, oracle: Oracle)
    : (o: Outcome)
    ensures o.state.slug == s.slug && o.state.board == s.board && o.state.lifecycle == s.lifecycle
    ensures |o.state.columns| == |s.columns|
    ensures Recovers(s, columnId) ==>
              var c := s.columns[ColumnIndex(s.columns, columnId)];
              |o.trace| > 0 &&
              o.trace[0] == Sent(CreateColumnCall(CreateColumnPayload(s.board.value.id, c.title, c.position)))
    ensures Recovers(s, columnId) && oracle(0).Rejected? ==> o == Outcome(s, [o.trace[0]])
    ensures !Recovers(s, columnId) ==>
              |o.trace| > 0 &&
              o.trace[0] == Sent(CreateTaskCall(TaskCreate(columnId, title, priority,
                                                           NextTaskPosition(s.columns, columnId))))
  {
    var cols := s.columns;
    var position := NextTaskPosition(cols, columnId);
    if Recovers(s, columnId) then
      var c := cols[ColumnIndex(cols, columnId)];
      var columnCall := Sent(CreateColumnCall(CreateColumnPayload(s.board.value.id, c.title, c.position)));
      if oracle(0).Rejected? then Outcome(s, [columnCall])
      else
        var targetId := oracle(0).newId;
        var s1 := s.(columns := RenameId(cols, columnId, targetId));
        CreateTaskStep(s1, [columnCall], columnId, targetId, title, priority, position, oracle)
    else
      CreateTaskStep(s, [], columnId, columnId, title, priority, position, oracle)
  }

  /** The task create after the optional column create `pre`; its reply
      is `oracle(|pre|)`. */
  function CreateTaskStep(s: State, pre: seq<Event>, columnId: string, targetId: string, title: string,
                          priority: Priority, position: nat, oracle: Oracle): (o: Outcome)
    ensures var call := Sent(CreateTaskCall(TaskCreate(targetId, title, priority, position)));
            && (oracle(|pre|).Rejected? ==> o == Outcome(s, pre + [call]))
            && (oracle(|pre|).Accepted? ==> o.trace == pre + [call, MutationDone])
    ensures o.state.slug == s.slug && o.state.board == s.board && o.state.lifecycle == s.lifecycle
    ensures oracle(|pre|).Accepted? ==>
              o.state.columns == AppendTask(s.columns, columnId, targetId,
                                            CreatedTask(TaskCreate(targetId, title, priority, position), oracle(|pre|)))
  {
    var params := TaskCreate(targetId, title, priority, position);
    var call := Sent(CreateTaskCall(params));
    var reply := oracle(|pre|);
    if reply.Rejected? then Outcome(s, pre + [call])
    else
      var task := CreatedTask(params, reply);
      Outcome(s.(columns := AppendTask(s.columns, columnId, targetId, task)), pre + [call, MutationDone])
  }

  /** The recovery path with both calls accepted: the column is created
      with its title and position, the task goes to the column's new id at
      the old task count, and the column takes the new id. */
  lemma RecoverySucceeds(s: State, columnId: string, title: string, priority: Priority, oracle: Oracle)
    requires Recovers(s, columnId) && oracle(0).Accepted? && oracle(1).Accepted?
    requires forall i :: 0 <= i < |s.columns| ==> s.columns[i].id != oracle(0).newId
    ensures var o := AddTaskPersisted(s, columnId, title, priority, oracle);
            var t := ColumnIndex(s.columns, columnId);
            var c := s.columns[t];
            var newId := oracle(0).newId;
            && o.trace == [Sent(CreateColumnCall(CreateColumnPayload(s.board.value.id, c.title, c.position))),
                           Sent(CreateTaskCall(TaskCreate(newId, title, priority, |c.tasks|))),
                           MutationDone]
            && o.state.columns[t].id == newId
            && o.state.columns[t].tasks[..|c.tasks|] == c.tasks
            && |o.state.columns[t].tasks| == |c.tasks| + 1
            && o.state.columns[t].tasks[|c.tasks|].column_id == newId
            && forall i :: 0 <= i < |s.columns| && s.columns[i].id != columnId ==> o.state.columns[i] == s.columns[i]
  {
    var t := ColumnIndex(s.columns, columnId);
    var s1 := s.(columns := RenameId(s.columns, columnId, oracle(0).newId));
    assert s1.columns[t] == s.columns[t].(id := oracle(0).newId);
  }

  /** A rejected task create on the recovery path still leaves the column
      under its new remote id: the remap is not undone. */
  lemma RecoveryTaskRejected(s: State, columnId: string, title: string, priority: Priority, oracle: Oracle)
    requires Recovers(s, columnId) && oracle(0).Accepted? && oracle(1).Rejected?
    ensures var o := AddTaskPersisted(s, columnId, title, priority, oracle);
            var t := ColumnIndex(s.columns, columnId);
            && o.state.columns[t] == s.columns[t].(id := oracle(0).newId)
            && |o.trace| == 2 && MutationDone !in o.trace
  {
  }

  /** A column that is not local: one task create at the old task count,
      and when accepted the task is appended to the column. */
  lemma PersistedAddToColumn(s: State, t: nat, title: string, priority: Priority, oracle: Oracle)
    requires t < |s.columns| && !IsLocalId(s.columns[t].id) && oracle(0).Accepted?
    requires ColumnIndex(s.columns, s.columns[t].id) == t
    ensures var o := AddTaskPersisted(s, s.columns[t].id, title, priority, oracle);
            var c := s.columns[t];
            && o.trace == [Sent(CreateTaskCall(TaskCreate(c.id, title, priority, |c.tasks|))), MutationDone]
            && o.state.columns[t] == c.(tasks := c.tasks + [o.state.columns[t].tasks[|c.tasks|]])
            && o.state.columns[t].tasks[|c.tasks|].position == |c.tasks|
  {
  }

  // ---------------------------------------------------------------------------
  // addTask
  // ---------------------------------------------------------------------------

  /** addTask; an absent priority is "medium". */
  function AddTask(s: State, columnId: string, title: string, priority: Option<Priority>, oracle: Oracle)
    : (o: Outcome)
    ensures s.lifecycle == Unpersisted ==>
              o == Bootstrap(s, columnId, title, priority.GetOr(Medium), oracle)
    ensures s.lifecycle == Persisted ==>
              o == AddTaskPersisted(s, columnId, title, priority.GetOr(Medium), oracle)
  {
    var p := priority.GetOr(Medium);
    if s.lifecycle == Unpersisted then Bootstrap(s, columnId, title, p, oracle)
    else AddTaskPersisted(s, columnId, title, p, oracle)
  }

  /** addTask keeps a valid state valid. */
  lemma AddTaskKeepsValid(s: State, columnId: string, title: string, priority: Option<Priority>, oracle: Oracle)
    requires Valid(s)
    ensures Valid(AddTask(s, columnId, title, priority, oracle).state)
  {
  }
}

