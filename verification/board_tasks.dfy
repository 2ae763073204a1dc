/** The task operations of the board hook (src/hooks/use-board.ts) other
    than adding: editing, removing and moving (drag and drop) tasks. */
module BoardTasks {
  import opened Wrappers
  import opened Types
  import opened Db
  import opened JsArray
  import opened BoardState

  // ---------------------------------------------------------------------------
  // editTask
  // ---------------------------------------------------------------------------

  /** The fields an edit may carry; `description` may be set to null
      (`Some(None)`). An absent field leaves the task's value. */
  datatype TaskEdit = TaskEdit(title: Option<string>, description: Option<Option<string>>, priority: Option<Priority>)

  /** The task with each field the edit gives replaced, the rest kept. */
  function ApplyEdit(t: Task, e: TaskEdit): (r: Task)
    ensures r.title == e.title.GetOr(t.title)
    ensures r.description == e.description.GetOr(t.description)
    ensures r.priority == e.priority.GetOr(t.priority)
    ensures r.(title := t.title, description := t.description, priority := t.priority) == t
  {
    t.(title := e.title.GetOr(t.title),
       description := e.description.GetOr(t.description),
       priority := e.priority.GetOr(t.priority))
  }

  function EditIn(tasks: seq<Task>, taskId: string, e: TaskEdit): (r: seq<Task>)
    ensures |r| == |tasks|
    ensures forall i :: 0 <= i < |r| ==> tasks[i].id == taskId ==> r[i] == ApplyEdit(tasks[i], e)
    ensures forall i :: 0 <= i < |r| ==> tasks[i].id != taskId ==> r[i] == tasks[i]
  {
    seq(|tasks|, i requires 0 <= i < |tasks| => if tasks[i].id == taskId then ApplyEdit(tasks[i], e) else tasks[i])
  }

  /** editTask: every task with the id takes the edited fields, in every
      column; the update is sent even for an unpersisted board, and the
      callback fires only when it succeeds. */
  function EditTask(s: State, taskId: string, e: TaskEdit, oracle: Oracle): (o: Outcome)
    ensures o.state.slug == s.slug && o.state.board == s.board && o.state.lifecycle == s.lifecycle
    ensures |o.state.columns| == |s.columns|
    ensures forall i :: 0 <= i < |s.columns| ==>
              o.state.columns[i] == s.columns[i].(tasks := EditIn(s.columns[i].tasks, taskId, e))
    ensures |o.trace| > 0
    ensures o.trace[0] == Sent(UpdateTaskCall(UpdateTaskParamsOf(
                            UpdateTaskPayload(taskId, e.title, e.description, e.priority, None, None))))
    ensures oracle(0).Accepted? <==> o.trace == [o.trace[0], MutationDone]
    ensures oracle(0).Rejected? <==> |o.trace| == 1
  {
    var cols := seq(|s.columns|, i requires 0 <= i < |s.columns| =>
      s.columns[i].(tasks := EditIn(s.columns[i].tasks, taskId, e)));
    var call := Sent(UpdateTaskCall(UpdateTaskParamsOf(
                  UpdateTaskPayload(taskId, e.title, e.description, e.priority, None, None))));
    Outcome(s.(columns := cols), if oracle(0).Accepted? then [call, MutationDone] else [call])
  }

  /** An edit touches only the tasks with the id, only in the edited
      fields, and keeps every id where it was. */
  lemma EditTaskChangesOnlyTarget(s: State, taskId: string, e: TaskEdit, oracle: Oracle, c: nat, i: nat)
    requires c < |s.columns| && i < |s.columns[c].tasks|
    ensures var t := s.columns[c].tasks[i];
            var u := EditTask(s, taskId, e, oracle).state.columns[c].tasks[i];
            && (t.id != taskId ==> u == t)
            && u.(title := t.title, description := t.description, priority := t.priority) == t
            && (t.id == taskId ==> && u.title == e.title.GetOr(t.title)
                                   && u.description == e.description.GetOr(t.description)
                                   && u.priority == e.priority.GetOr(t.priority))
  {
  }

  // ---------------------------------------------------------------------------
  // removeTask
  // ---------------------------------------------------------------------------

  /** The tasks without the ones carrying the id, in their order. */
  function DropTask(tasks: seq<Task>, taskId: string): (r: seq<Task>)
    ensures |r| <= |tasks|
    ensures forall i :: 0 <= i < |r| ==> r[i].id != taskId && r[i] in tasks
  {
    if |tasks| == 0 then []
    else if tasks[0].id == taskId then DropTask(tasks[1..], taskId)
    else [tasks[0]] + DropTask(tasks[1..], taskId)
  }

  /** Dropping removes every copy of the id and leaves the count of every
      other id as it was. */
  lemma {:induction false} DropTaskIds(tasks: seq<Task>, taskId: string, other: string)
    requires other != taskId
    ensures TaskIds(DropTask(tasks, taskId))[taskId] == 0
    ensures TaskIds(DropTask(tasks, taskId))[other] == TaskIds(tasks)[other]
    decreases |tasks|
  {
    if |tasks| > 0 {
      var rest := DropTask(tasks[1..], taskId);
      DropTaskIds(tasks[1..], taskId, other);
      TaskIdsConcat([tasks[0]], tasks[1..]);
      assert [tasks[0]] + tasks[1..] == tasks;
      assert TaskIds([tasks[0]]) == multiset{tasks[0].id} by {
        assert IdsOf([tasks[0]]) == [tasks[0].id];
      }
      if tasks[0].id != taskId {
        TaskIdsConcat([tasks[0]], rest);
        assert DropTask(tasks, taskId) == [tasks[0]] + rest;
      } else {
        assert DropTask(tasks, taskId) == rest;
      }
    }
  }

  /** Dropping an id no task has changes nothing. */
  lemma {:induction false} DropTaskAbsent(tasks: seq<Task>, taskId: string)
    requires forall i :: 0 <= i < |tasks| ==> tasks[i].id != taskId
    ensures DropTask(tasks, taskId) == tasks
    decreases |tasks|
  {
    if |tasks| > 0 {
      DropTaskAbsent(tasks[1..], taskId);
      assert [tasks[0]] + tasks[1..] == tasks;
    }
  }

  /** Dropping works piecewise, so the remaining tasks keep their order. */
  lemma {:induction false} DropTaskConcat(a: seq<Task>, b: seq<Task>, taskId: string)
    ensures DropTask(a + b, taskId) == DropTask(a, taskId) + DropTask(b, taskId)
    decreases |a|
  {
    if |a| == 0 {
      assert a + b == b;
    } else {
      assert (a + b)[1..] == a[1..] + b;
      DropTaskConcat(a[1..], b, taskId);
    }
  }

  /** removeTask: the task is dropped from every column and every column's
      tasks are renumbered; the delete is always sent and the callback
      fires only when it succeeds. */
  function RemoveTask(s: State, taskId: string, oracle: Oracle): (o: Outcome)
    ensures o.state.slug == s.slug && o.state.board == s.board && o.state.lifecycle == s.lifecycle
    ensures |o.state.columns| == |s.columns|
    ensures forall i :: 0 <= i < |s.columns| ==>
              o.state.columns[i] == s.columns[i].(tasks := RenumberTasks(DropTask(s.columns[i].tasks, taskId)))
    ensures |o.trace| > 0 && o.trace[0] == Sent(DeleteTaskCall(taskId))
    ensures oracle(0).Accepted? <==> o.trace == [o.trace[0], MutationDone]
    ensures oracle(0).Rejected? <==> |o.trace| == 1
  {
    var cols := seq(|s.columns|, i requires 0 <= i < |s.columns| =>
      s.columns[i].(tasks := RenumberTasks(DropTask(s.columns[i].tasks, taskId))));
    var call := Sent(DeleteTaskCall(taskId));
    Outcome(s.(columns := cols), if oracle(0).Accepted? then [call, MutationDone] else [call])
  }

  /** After removeTask no column holds the id, every other id keeps its
      count in every column, and positions equal indices. */
  lemma RemoveTaskSpec(s: State, taskId: string, oracle: Oracle, c: nat, other: string)
    requires c < |s.columns| && other != taskId
    ensures var ts := RemoveTask(s, taskId, oracle).state.columns[c].tasks;
            && TaskIds(ts)[taskId] == 0
            && TaskIds(ts)[other] == TaskIds(s.columns[c].tasks)[other]
            && forall i :: 0 <= i < |ts| ==> ts[i].position == i
  {
    var dropped := DropTask(s.columns[c].tasks, taskId);
    DropTaskIds(s.columns[c].tasks, taskId, other);
    TaskIdsRenumber(dropped);
  }

  /** Dropping the id of a task that no task around it shares removes
      exactly that task and keeps the others in order. */
  lemma DropTaskSplice(a: seq<Task>, x: Task, b: seq<Task>)
    requires forall i :: 0 <= i < |a| ==> a[i].id != x.id
    requires forall i :: 0 <= i < |b| ==> b[i].id != x.id
    ensures DropTask(a + [x] + b, x.id) == a + b
  {
    assert DropTask(a, x.id) == a by {
      DropTaskAbsent(a, x.id);
    }
    assert DropTask([x] + b, x.id) == b by {
      assert ([x] + b)[1..] == b;
      DropTaskAbsent(b, x.id);
    }
    assert DropTask(a + ([x] + b), x.id) == DropTask(a, x.id) + DropTask([x] + b, x.id) by {
      DropTaskConcat(a, [x] + b, x.id);
    }
    assert a + [x] + b == a + ([x] + b);
  }

  /** Removing a task whose id no other task of the column shares keeps the
      remaining tasks in their relative order: the ones before it stay where
      they were and the ones after it move up by one, each renumbered. */
  lemma RemoveTaskKeepsOrder(s: State, taskId: string, oracle: Oracle, c: nat, k: nat)
    requires c < |s.columns| && k < |s.columns[c].tasks|
    requires s.columns[c].tasks[k].id == taskId
    requires forall i :: 0 <= i < |s.columns[c].tasks| && i != k ==> s.columns[c].tasks[i].id != taskId
    ensures var before := s.columns[c].tasks;
            var ts := RemoveTask(s, taskId, oracle).state.columns[c].tasks;
            && |ts| == |before| - 1
            && (forall i :: 0 <= i < k ==> ts[i] == before[i].(position := i))
            && (forall i :: k <= i < |ts| ==> ts[i] == before[i + 1].(position := i))
  {
    var before := s.columns[c].tasks;
    var a, b := before[..k], before[k + 1..];
    assert DropTask(before, taskId) == a + b by {
      assert forall i :: 0 <= i < |a| ==> a[i] == before[i];
      assert forall i :: 0 <= i < |b| ==> b[i] == before[k + 1 + i];
      DropTaskSplice(a, before[k], b);
      assert a + [before[k]] + b == before;
    }
    var kept := a + b;
    var ts := RemoveTask(s, taskId, oracle).state.columns[c].tasks;
    assert ts == RenumberTasks(kept);
    forall i | 0 <= i < k
      ensures ts[i] == before[i].(position := i)
    {
      RenumberedAt(kept, i);
      assert kept[i] == before[i];
    }
    forall i | k <= i < |ts|
      ensures ts[i] == before[i + 1].(position := i)
    {
      RenumberedAt(kept, i);
      assert kept[i] == before[i + 1];
    }
  }

  /** The task at an index of a renumbered list. */
  lemma RenumberedAt(tasks: seq<Task>, i: nat)
    requires i < |tasks|
    ensures RenumberTasks(tasks)[i] == tasks[i].(position := i)
  {
  }

  // ---------------------------------------------------------------------------
  // moveTask
  // ---------------------------------------------------------------------------

  /** `{ ...task, column_id: col.id }` for every task of a column, the
      entries of the position batch. */
  function Stamped(col: ColumnWithTasks): (r: seq<Task>)
    ensures |r| == |col.tasks|
    ensures forall i :: 0 <= i < |r| ==> r[i] == col.tasks[i].(column_id := col.id)
  {
    seq(|col.tasks|, i requires 0 <= i < |col.tasks| => col.tasks[i].(column_id := col.id))
  }

  /** Where a moved task is taken from and put: the columns' indices, the
      normalised source index and the normalised destination index. */
  datatype MovePlan = MovePlan(si: nat, di: nat, k: nat, d: nat)

  /** The plan of a move, or `None` when a column is missing or the source
      index names no task (the source's early returns). */
  function PlanMove(cols: seq<ColumnWithTasks>, sourceColId: string, destColId: string,
                    sourceIndex: int, destIndex: int): (p: Option<MovePlan>)
    ensures p.Some? ==>
              && p.value.si < |cols| && p.value.di < |cols|
              && p.value.si == ColumnIndex(cols, sourceColId)
              && p.value.di == ColumnIndex(cols, destColId)
              && (p.value.si == p.value.di <==> sourceColId == destColId)
              && p.value.k == SpliceStart(|cols[p.value.si].tasks|, sourceIndex)
              && p.value.k < |cols[p.value.si].tasks|
              && p.value.d == SpliceStart(
                   if p.value.si == p.value.di then |cols[p.value.si].tasks| - 1 else |cols[p.value.di].tasks|,
                   destIndex)
    ensures p.None? <==>
              ColumnIndex(cols, sourceColId) < 0 || ColumnIndex(cols, destColId) < 0
              || SpliceStart(|cols[ColumnIndex(cols, sourceColId)].tasks|, sourceIndex)
                   >= |cols[ColumnIndex(cols, sourceColId)].tasks|
  {
    var si := ColumnIndex(cols, sourceColId);
    var di := ColumnIndex(cols, destColId);
    if si < 0 || di < 0 then None
    else
      var n := |cols[si].tasks|;
      var k := SpliceStart(n, sourceIndex);
      if k >= n then None
      else
        var d := SpliceStart(if si == di then n - 1 else |cols[di].tasks|, destIndex);
        Some(MovePlan(si, di, k, d))
  }

  /** The columns after a planned move: the task leaves the source column,
      takes the destination column's id and lands at the destination
      index; both columns are renumbered. */
  function ApplyMove(cols: seq<ColumnWithTasks>, destColId: string, p: MovePlan): (r: seq<ColumnWithTasks>)
    requires p.si < |cols| && p.di < |cols| && p.k < |cols[p.si].tasks|
    requires p.d <= if p.si == p.di then |cols[p.si].tasks| - 1 else |cols[p.di].tasks|
    ensures |r| == |cols|
    ensures forall j :: 0 <= j < |cols| && j != p.si && j != p.di ==> r[j] == cols[j]
    ensures r[p.si].(tasks := cols[p.si].tasks) == cols[p.si]
    ensures r[p.di].(tasks := cols[p.di].tasks) == cols[p.di]
    ensures forall i :: 0 <= i < |r[p.si].tasks| ==> r[p.si].tasks[i].position == i
    ensures forall i :: 0 <= i < |r[p.di].tasks| ==> r[p.di].tasks[i].position == i
    ensures p.si == p.di ==> |r[p.di].tasks| == |cols[p.di].tasks|
    ensures p.si != p.di ==> |r[p.si].tasks| + 1 == |cols[p.si].tasks| && |r[p.di].tasks| == |cols[p.di].tasks| + 1
    ensures p.d < |r[p.di].tasks| &&
            r[p.di].tasks[p.d] == cols[p.si].tasks[p.k].(column_id := destColId, position := p.d)
  {
    var src := cols[p.si].tasks;
    var moved := src[p.k].(column_id := destColId);
    var rest := RemoveAt(src, p.k);
    if p.si == p.di then
      cols[p.si := cols[p.si].(tasks := RenumberTasks(InsertAt(rest, p.d, moved)))]
    else
      var dst := cols[p.di].tasks;
      cols[p.si := cols[p.si].(tasks := RenumberTasks(rest))]
          [p.di := cols[p.di].(tasks := RenumberTasks(InsertAt(dst, p.d, moved)))]
  }

  /** The columns moveTask shows: unchanged when there is nothing to move,
      otherwise the planned move applied. */
  function MovedTasks(cols: seq<ColumnWithTasks>, sourceColId: string, destColId: string,
                      sourceIndex: int, destIndex: int): seq<ColumnWithTasks>
  {
    var p := PlanMove(cols, sourceColId, destColId, sourceIndex, destIndex);
    if p.None? then cols else ApplyMove(cols, destColId, p.value)
  }

  /** moveTask. A missing column or a source index naming no task changes
      nothing. Otherwise the columns after the move are shown, and when
      persisted the tasks of the affected columns (stamped with their
      column's id) go out in one position batch, whose failure is
      swallowed, followed by the callback. */
  function MoveTask(s: State, sourceColId: string, destColId: string, sourceIndex: int, destIndex: int,
                    oracle: Oracle): (o: Outcome)
    ensures o.state == s.(columns := MovedTasks(s.columns, sourceColId, destColId, sourceIndex, destIndex))
    ensures var p := PlanMove(s.columns, sourceColId, destColId, sourceIndex, destIndex);
            p.None? ==> o == Outcome(s, [])
    ensures var p := PlanMove(s.columns, sourceColId, destColId, sourceIndex, destIndex);
            p.Some? ==>
              && o.state == s.(columns := ApplyMove(s.columns, destColId, p.value))
              && (s.lifecycle == Unpersisted ==> o.trace == [])
              && (s.lifecycle == Persisted ==>
                    var cols := o.state.columns;
                    var updates := if p.value.si == p.value.di then Stamped(cols[p.value.di])
                                   else Stamped(cols[p.value.si]) + Stamped(cols[p.value.di]);
                    var batch := TaskPositionsBatch(updates);
                    batch.Some? && o.trace == [Sent(UpdateTaskPositionsCall(batch.value)), MutationDone])
  {
    var p := PlanMove(s.columns, sourceColId, destColId, sourceIndex, destIndex);
    if p.None? then Outcome(s, [])
    else
      var cols := ApplyMove(s.columns, destColId, p.value);
      var st := s.(columns := cols);
      var updates := if p.value.si == p.value.di then Stamped(cols[p.value.di])
                     else Stamped(cols[p.value.si]) + Stamped(cols[p.value.di]);
      if s.lifecycle == Persisted && |updates| > 0 then
        Outcome(st, [Sent(UpdateTaskPositionsCall(TaskPositionsBatch(updates).value)), MutationDone])
      else Outcome(st, [])
  }

  lemma TaskIdsRemoveAt(tasks: seq<Task>, k: nat)
    requires k < |tasks|
    ensures TaskIds(RemoveAt(tasks, k)) + multiset{tasks[k].id} == TaskIds(tasks)
  {
    IdsOfRemoveAt(tasks, k);
  }

  lemma TaskIdsInsertAt(tasks: seq<Task>, d: nat, x: Task)
    requires d <= |tasks|
    ensures TaskIds(InsertAt(tasks, d, x)) == TaskIds(tasks) + multiset{x.id}
  {
    IdsOfInsertAt(tasks, d, x);
  }

  lemma TaskIdsRenumber(tasks: seq<Task>)
    ensures TaskIds(RenumberTasks(tasks)) == TaskIds(tasks)
  {
    IdsOfRenumber(tasks);
  }

  lemma MultisetCancel(a: multiset<string>, b: multiset<string>, c: multiset<string>, d: multiset<string>)
    requires a + c == b + d && c == d
    ensures a == b
  {
    assert forall x :: a[x] + c[x] == b[x] + d[x] by {
      forall x ensures a[x] + c[x] == b[x] + d[x] {
        assert (a + c)[x] == (b + d)[x];
      }
    }
  }

  /** The bookkeeping of a move across columns: one id leaves the source
      column's multiset and joins the destination's. */
  lemma MultisetShift(fin: multiset<string>, mid: multiset<string>, all: multiset<string>,
                      src: multiset<string>, dst: multiset<string>,
                      src2: multiset<string>, dst2: multiset<string>, m: multiset<string>)
    requires src2 + m == src && dst2 == dst + m
    requires mid + src == all + src2
    requires fin + dst == mid + dst2
    ensures fin == all
  {
    forall x ensures fin[x] == all[x] {
      assert (src2 + m)[x] == src[x];
      assert dst2[x] == (dst + m)[x];
      assert (mid + src)[x] == (all + src2)[x];
      assert (fin + dst)[x] == (mid + dst2)[x];
    }
  }

  /** Taking a task out and putting it back somewhere keeps the ids. */
  lemma MovedTaskIds(src: seq<Task>, k: nat, d: nat, moved: Task)
    requires k < |src| && d < |src| && moved.id == src[k].id
    ensures TaskIds(RenumberTasks(InsertAt(RemoveAt(src, k), d, moved))) == TaskIds(src)
  {
    var rest := RemoveAt(src, k);
    TaskIdsRemoveAt(src, k);
    TaskIdsInsertAt(rest, d, moved);
    TaskIdsRenumber(InsertAt(rest, d, moved));
  }

  lemma MoveWithinKeepsTaskIds(cols: seq<ColumnWithTasks>, destColId: string, p: MovePlan)
    requires p.si == p.di && p.si < |cols| && p.k < |cols[p.si].tasks| && p.d <= |cols[p.si].tasks| - 1
    ensures BoardTaskIds(ApplyMove(cols, destColId, p)) == BoardTaskIds(cols)
  {
    var src := cols[p.si].tasks;
    var moved := src[p.k].(column_id := destColId);
    var ts := RenumberTasks(InsertAt(RemoveAt(src, p.k), p.d, moved));
    MovedTaskIds(src, p.k, p.d, moved);
    var u := cols[p.si := cols[p.si].(tasks := ts)];
    BoardTaskIdsUpdate(cols, p.si, ts);
    MultisetCancel(BoardTaskIds(u), BoardTaskIds(cols), TaskIds(src), TaskIds(ts));
    assert u == ApplyMove(cols, destColId, p);
  }

  lemma MoveAcrossKeepsTaskIds(cols: seq<ColumnWithTasks>, destColId: string, p: MovePlan)
    requires p.si != p.di && p.si < |cols| && p.di < |cols|
    requires p.k < |cols[p.si].tasks| && p.d <= |cols[p.di].tasks|
    ensures BoardTaskIds(ApplyMove(cols, destColId, p)) == BoardTaskIds(cols)
  {
    var src := cols[p.si].tasks;
    var dst := cols[p.di].tasks;
    var moved := src[p.k].(column_id := destColId);
    var rest := RemoveAt(src, p.k);
    var ts1 := RenumberTasks(rest);
    var ts2 := RenumberTasks(InsertAt(dst, p.d, moved));
    assert TaskIds(ts1) + multiset{moved.id} == TaskIds(src) by {
      TaskIdsRemoveAt(src, p.k);
      TaskIdsRenumber(rest);
    }
    assert TaskIds(ts2) == TaskIds(dst) + multiset{moved.id} by {
      TaskIdsInsertAt(dst, p.d, moved);
      TaskIdsRenumber(InsertAt(dst, p.d, moved));
    }
    var mid := cols[p.si := cols[p.si].(tasks := ts1)];
    assert BoardTaskIds(mid) + TaskIds(src) == BoardTaskIds(cols) + TaskIds(ts1) by {
      BoardTaskIdsUpdate(cols, p.si, ts1);
    }
    assert mid[p.di] == cols[p.di];
    var fin := mid[p.di := mid[p.di].(tasks := ts2)];
    assert BoardTaskIds(fin) + TaskIds(dst) == BoardTaskIds(mid) + TaskIds(ts2) by {
      BoardTaskIdsUpdate(mid, p.di, ts2);
    }
    MultisetShift(BoardTaskIds(fin), BoardTaskIds(mid), BoardTaskIds(cols),
                  TaskIds(src), TaskIds(dst), TaskIds(ts1), TaskIds(ts2), multiset{moved.id});
    assert fin == ApplyMove(cols, destColId, p);
  }

  /** A move across columns keeps both columns' other tasks in order: the
      source column closes the gap at the moved task's index, the
      destination column opens one at the landing index, and every task
      takes its new index as position and is otherwise unchanged. */
  lemma MoveAcrossKeepsOrder(cols: seq<ColumnWithTasks>, destColId: string, p: MovePlan)
    requires p.si != p.di && p.si < |cols| && p.di < |cols|
    requires p.k < |cols[p.si].tasks| && p.d <= |cols[p.di].tasks|
    ensures var src := cols[p.si].tasks;
            var dst := cols[p.di].tasks;
            var r := ApplyMove(cols, destColId, p);
            && |r[p.si].tasks| == |src| - 1
            && (forall i :: 0 <= i < p.k ==> r[p.si].tasks[i] == src[i].(position := i))
            && (forall i :: p.k <= i < |src| - 1 ==> r[p.si].tasks[i] == src[i + 1].(position := i))
            && |r[p.di].tasks| == |dst| + 1
            && (forall i :: 0 <= i < p.d ==> r[p.di].tasks[i] == dst[i].(position := i))
            && r[p.di].tasks[p.d] == src[p.k].(column_id := destColId, position := p.d)
            && (forall i :: p.d < i <= |dst| ==> r[p.di].tasks[i] == dst[i - 1].(position := i))
  {
    var src := cols[p.si].tasks;
    var dst := cols[p.di].tasks;
    var moved := src[p.k].(column_id := destColId);
    var rest := RemoveAt(src, p.k);
    var ins := InsertAt(dst, p.d, moved);
    var r := ApplyMove(cols, destColId, p);
    assert r[p.si].tasks == RenumberTasks(rest);
    assert r[p.di].tasks == RenumberTasks(ins);
    forall i | 0 <= i < |rest| ensures r[p.si].tasks[i] == rest[i].(position := i) {
      RenumberedAt(rest, i);
    }
    forall i | 0 <= i < |ins| ensures r[p.di].tasks[i] == ins[i].(position := i) {
      RenumberedAt(ins, i);
    }
  }

  /** A move within one column takes the task's id out of the column's id
      order and puts it back at the landing index. */
  lemma MoveWithinKeepsOrder(cols: seq<ColumnWithTasks>, destColId: string, p: MovePlan)
    requires p.si == p.di && p.si < |cols| && p.k < |cols[p.si].tasks| && p.d <= |cols[p.si].tasks| - 1
    ensures var src := cols[p.si].tasks;
            IdsOf(ApplyMove(cols, destColId, p)[p.si].tasks) == InsertAt(RemoveAt(IdsOf(src), p.k), p.d, src[p.k].id)
  {
    var src := cols[p.si].tasks;
    var moved := src[p.k].(column_id := destColId);
    var back := InsertAt(RemoveAt(src, p.k), p.d, moved);
    assert ApplyMove(cols, destColId, p)[p.si].tasks == RenumberTasks(back);
    IdsOfRemoveAt(src, p.k);
    IdsOfInsertAt(RemoveAt(src, p.k), p.d, moved);
    IdsOfRenumber(back);
  }

  /** A move keeps the multiset of task ids on the board. */
  lemma MoveTaskKeepsTaskIds(s: State, sourceColId: string, destColId: string, sourceIndex: int, destIndex: int,
                             oracle: Oracle)
    ensures BoardTaskIds(MoveTask(s, sourceColId, destColId, sourceIndex, destIndex, oracle).state.columns)
            == BoardTaskIds(s.columns)
  {
    var p := PlanMove(s.columns, sourceColId, destColId, sourceIndex, destIndex);
    if p.Some? {
      if p.value.si == p.value.di {
        MoveWithinKeepsTaskIds(s.columns, destColId, p.value);
      } else {
        MoveAcrossKeepsTaskIds(s.columns, destColId, p.value);
      }
    }
  }

  /** Moving a task to its own index in its own column keeps the order of
      the column's tasks. */
  lemma MoveTaskInPlace(s: State, colId: string, i: nat, oracle: Oracle)
    requires var c := ColumnIndex(s.columns, colId); c >= 0 && i < |s.columns[c].tasks|
    ensures var c := ColumnIndex(s.columns, colId);
            IdsOf(MoveTask(s, colId, colId, i, i, oracle).state.columns[c].tasks) == IdsOf(s.columns[c].tasks)
  {
    var c := ColumnIndex(s.columns, colId);
    var src := s.columns[c].tasks;
    var moved := src[i].(column_id := colId);
    var back := InsertAt(RemoveAt(src, i), i, moved);
    var p := MovePlan(c, c, i, i);
    assert PlanMove(s.columns, colId, colId, i, i) == Some(p);
    assert MoveTask(s, colId, colId, i, i, oracle).state.columns == ApplyMove(s.columns, colId, p);
    assert ApplyMove(s.columns, colId, p)[c].tasks == RenumberTasks(back);
    assert IdsOf(RenumberTasks(back)) == IdsOf(src) by {
      IdsOfRemoveAt(src, i);
      IdsOfInsertAt(RemoveAt(src, i), i, moved);
      InsertAtRemoveAt(IdsOf(src), i);
      IdsOfRenumber(back);
    }
  }

  /** Editing, removing and moving tasks keep a valid state valid. */
  lemma TaskOpsKeepValid(s: State, taskId: string, e: TaskEdit, sourceColId: string, destColId: string,
                         sourceIndex: int, destIndex: int, oracle: Oracle)
    requires Valid(s)
    ensures Valid(EditTask(s, taskId, e, oracle).state)
    ensures Valid(RemoveTask(s, taskId, oracle).state)
    ensures Valid(MoveTask(s, sourceColId, destColId, sourceIndex, destIndex, oracle).state)
  {
  }
}
