/** importBoard (src/lib/import.ts): validate a parsed document, then clear
    the existing board (or create one) and recreate the document's columns
    and tasks, in order, against the remote store. The reads the import
    makes (getBoard, getColumns) are sent as calls whose success comes from
    the oracle; the data they return is a parameter. A rejected call
    throws: the steps after it do not happen. */
module Import {
  import opened Wrappers
  import opened Types
  import opened Db
  import opened Export

  const InvalidJson: string := "Invalid JSON file"
  const InvalidFormat: string := "Invalid export format"

  /** A task entry of the document; `priority` is `None` when missing. */
  datatype DocTask = DocTask(title: string, description: Option<string>, priority: Option<Priority>, position: int)

  datatype DocColumn = DocColumn(title: string, position: int, tasks: seq<DocTask>)

  /** The parsed document as far as importBoard reads it: `version` when it
      is a number, and `board.columns` when it is present. */
  datatype Document = Document(version: Option<int>, columns: Option<seq<DocColumn>>)

  /** What parsing the JSON text of an exported document gives back. */
  function Parsed(e: ExportData): (d: Document)
    ensures d.version == Some(e.version) && d.columns.Some? && |d.columns.value| == |e.columns|
  {
    Document(Some(e.version), Some(seq(|e.columns|, i requires 0 <= i < |e.columns| => ParsedColumn(e.columns[i]))))
  }

  function ParsedColumn(c: ExportColumn): (r: DocColumn)
    ensures r.title == c.title && r.position == c.position && |r.tasks| == |c.tasks|
    ensures forall j :: 0 <= j < |c.tasks| ==>
              r.tasks[j] == DocTask(c.tasks[j].title, c.tasks[j].description, Some(c.tasks[j].priority),
                                    c.tasks[j].position)
  {
    DocColumn(c.title, c.position, seq(|c.tasks|, j requires 0 <= j < |c.tasks| =>
      DocTask(c.tasks[j].title, c.tasks[j].description, Some(c.tasks[j].priority), c.tasks[j].position)))
  }

  /** The basic validation: version 1 and a `board.columns` entry. An empty
      column list is accepted. */
  predicate ValidDocument(d: Document)
  {
    d.version == Some(ExportVersion) && d.columns.Some?
  }

  /** The part of an import done so far: a value, or the message of the
      error thrown; and the calls sent. */
  datatype Run<T> = Done(value: T, trace: seq<Event>) | Threw(message: string, trace: seq<Event>)

  /** Every call from trace index `base` on, `n` of them, is accepted. */
  predicate Accepts(oracle: Oracle, base: nat, n: nat)
  {
    forall k :: base <= k < base + n ==> oracle(k).Accepted?
  }

  /** Accepting a non-empty run of calls is accepting the first and then
      the rest. */
  lemma AcceptsCons(oracle: Oracle, base: nat, n: nat)
    requires n > 0
    ensures Accepts(oracle, base, n) <==> oracle(base).Accepted? && Accepts(oracle, base + 1, n - 1)
  {
  }

  /** A run that threw did so because the reply to its last call, at trace
      index `base + |trace| - 1`, was a rejection, and the message is the
      formatted error. */
  predicate ThrewAtLast<T>(r: Run<T>, base: nat, oracle: Oracle)
  {
    r.Threw? ==> |r.trace| > 0 && oracle(base + |r.trace| - 1).Rejected?
                 && r.message == ErrorMessage(oracle(base + |r.trace| - 1).error)
  }

  // ---------------------------------------------------------------------------
  // Clearing the existing columns
  // ---------------------------------------------------------------------------

  function DeleteCalls(cols: seq<Column>): (r: seq<Event>)
    ensures |r| == |cols|
    ensures forall j :: 0 <= j < |cols| ==> r[j] == Sent(DeleteColumnCall(cols[j].id))
  {
    seq(|cols|, j requires 0 <= j < |cols| => Sent(DeleteColumnCall(cols[j].id)))
  }

  /** Deletes the existing columns one after another, stopping at the first
      rejected delete. */
  function DeleteAll(cols: seq<Column>, base: nat, oracle: Oracle): (r: Run<()>)
    ensures r.Done? <==> Accepts(oracle, base, |cols|)
    ensures r.Done? ==> r.trace == DeleteCalls(cols)
    ensures r.Threw? ==> |r.trace| <= |cols| && r.trace == DeleteCalls(cols)[..|r.trace|]
    ensures ThrewAtLast(r, base, oracle)
    decreases |cols|
  {
    if |cols| == 0 then Done((), [])
    else
      var e := Sent(DeleteColumnCall(cols[0].id));
      var reply := oracle(base);
      if reply.Rejected? then Threw(ErrorMessage(reply.error), [e])
      else
        var rest := DeleteAll(cols[1..], base + 1, oracle);
        assert DeleteCalls(cols) == [e] + DeleteCalls(cols[1..]);
        AcceptsCons(oracle, base, |cols|);
        rest.(trace := [e] + rest.trace)
  }

  // ---------------------------------------------------------------------------
  // Recreating the document's columns and tasks
  // ---------------------------------------------------------------------------

  /** The createTask parameters of a document task under a new column: a
      missing priority becomes "medium" and a null description is left
      out, which createTask sends as null. */
  function TaskParams(columnId: string, t: DocTask): (p: CreateTaskParams)
    ensures p.column_id == columnId && p.title == t.title && p.position == t.position
    ensures p.description == t.description
    ensures p.priority == t.priority.GetOr(Medium)
  {
    CreateTaskParamsOf(CreateTaskPayload(columnId, t.title, t.description, Some(t.priority.GetOr(Medium)), t.position))
  }

  /** The task creates for one column, in document order. */
  function TaskCalls(columnId: string, tasks: seq<DocTask>): (r: seq<Event>)
    ensures |r| == |tasks|
    ensures forall j :: 0 <= j < |tasks| ==> r[j] == Sent(CreateTaskCall(TaskParams(columnId, tasks[j])))
  {
    seq(|tasks|, j requires 0 <= j < |tasks| => Sent(CreateTaskCall(TaskParams(columnId, tasks[j]))))
  }

  /** The creates for a non-empty list are the first task's create followed
      by the creates for the rest. */
  lemma TaskCallsCons(columnId: string, tasks: seq<DocTask>)
    requires |tasks| > 0
    ensures TaskCalls(columnId, tasks)
            == [Sent(CreateTaskCall(TaskParams(columnId, tasks[0])))] + TaskCalls(columnId, tasks[1..])
  {
  }

  /** A created task carries the document task's content under the new
      column. */
  predicate TaskMatches(t: Task, columnId: string, d: DocTask)
  {
    t.column_id == columnId && t.title == d.title && t.description == d.description
    && t.priority == d.priority.GetOr(Medium) && t.position == d.position
  }

  /** The inner loop: the tasks of one column, created one by one. */
  function CreateTasks(columnId: string, tasks: seq<DocTask>, base: nat, oracle: Oracle): (r: Run<seq<Task>>)
    ensures r.Done? <==> Accepts(oracle, base, |tasks|)
    ensures r.Done? ==> r.trace == TaskCalls(columnId, tasks)
    ensures r.Done? ==> |r.value| == |tasks| && forall j :: 0 <= j < |tasks| ==> TaskMatches(r.value[j], columnId, tasks[j])
    ensures r.Threw? ==> |r.trace| <= |tasks| && r.trace == TaskCalls(columnId, tasks)[..|r.trace|]
    ensures ThrewAtLast(r, base, oracle)
    decreases |tasks|
  {
    if |tasks| == 0 then Done([], [])
    else
      var params := TaskParams(columnId, tasks[0]);
      var e := Sent(CreateTaskCall(params));
      var reply := oracle(base);
      if reply.Rejected? then Threw(ErrorMessage(reply.error), [e])
      else
        var rest := CreateTasks(columnId, tasks[1..], base + 1, oracle);
        TaskCallsCons(columnId, tasks);
        AcceptsCons(oracle, base, |tasks|);
        match rest
        case Done(ts, tr) => Done([CreatedTask(params, reply)] + ts, [e] + tr)
        case Threw(m, tr) => Threw(m, [e] + tr)
  }

  /** The number of calls recreating the columns takes: one per column and
      one per task. */
  function CallCount(cols: seq<DocColumn>): nat
  {
    if |cols| == 0 then 0 else 1 + |cols[0].tasks| + CallCount(cols[1..])
  }

  /** The calls of a successful recreation, given the columns it created:
      each column's create (the document's title and position), followed by
      the creates of its tasks under the new column's id. */
  function RecreateCalls(boardId: string, cols: seq<DocColumn>, created: seq<ColumnWithTasks>): (r: seq<Event>)
    requires |created| == |cols|
    ensures |r| == CallCount(cols)
  {
    if |cols| == 0 then []
    else
      [Sent(CreateColumnCall(CreateColumnPayload(boardId, cols[0].title, cols[0].position)))]
      + TaskCalls(created[0].id, cols[0].tasks) + RecreateCalls(boardId, cols[1..], created[1..])
  }

  /** A created column carries the document column's content on the board,
      with the created tasks of its own. */
  predicate ColumnMatches(c: ColumnWithTasks, boardId: string, d: DocColumn)
  {
    && c.board_id == boardId && c.title == d.title && c.position == d.position
    && |c.tasks| == |d.tasks|
    && forall j :: 0 <= j < |d.tasks| ==> TaskMatches(c.tasks[j], c.id, d.tasks[j])
  }

  /** One pass of the outer loop: the column is created, then its tasks
      under the new column's id. */
  function CreateColumn(boardId: string, d: DocColumn, base: nat, oracle: Oracle): (r: Run<ColumnWithTasks>)
    ensures r.Done? <==> Accepts(oracle, base, 1 + |d.tasks|)
    ensures r.Done? ==> r.trace == [Sent(CreateColumnCall(CreateColumnPayload(boardId, d.title, d.position)))]
                                   + TaskCalls(r.value.id, d.tasks)
    ensures r.Done? ==> |r.trace| == 1 + |d.tasks| && ColumnMatches(r.value, boardId, d)
    ensures ThrewAtLast(r, base, oracle)
  {
    var payload := CreateColumnPayload(boardId, d.title, d.position);
    var e := Sent(CreateColumnCall(payload));
    var reply := oracle(base);
    if reply.Rejected? then Threw(ErrorMessage(reply.error), [e])
    else
      var col := CreatedColumn(payload, reply);
      var tasks := CreateTasks(col.id, d.tasks, base + 1, oracle);
      AcceptsSplit(oracle, base, |d.tasks|, 0);
      if tasks.Threw? then
        ThrewAfter<seq<Task>, ColumnWithTasks>(tasks, [e], base, oracle);
        Threw(tasks.message, [e] + tasks.trace)
      else Done(WithTasks(col, tasks.value), [e] + tasks.trace)
  }

  /** The outer loop over the document's columns. */
  function CreateColumns(boardId: string, cols: seq<DocColumn>, base: nat, oracle: Oracle)
    : (r: Run<seq<ColumnWithTasks>>)
    ensures Accepts(oracle, base, CallCount(cols)) ==> r.Done?
    ensures r.Done? ==> |r.value| == |cols| && r.trace == RecreateCalls(boardId, cols, r.value)
    ensures r.Done? ==> forall i :: 0 <= i < |cols| ==> ColumnMatches(r.value[i], boardId, cols[i])
    ensures ThrewAtLast(r, base, oracle)
    decreases |cols|
  {
    if |cols| == 0 then Done([], [])
    else
      var first := CreateColumn(boardId, cols[0], base, oracle);
      AcceptsSplit(oracle, base, |cols[0].tasks|, CallCount(cols[1..]));
      if first.Threw? then Threw(first.message, first.trace)
      else
        var rest := CreateColumns(boardId, cols[1..], base + |first.trace|, oracle);
        match rest
        case Done(cs, tr) =>
          RecreateCallsCons(boardId, cols, first.value, cs);
          ColumnsMatchCons(boardId, cols, first.value, cs);
          Done([first.value] + cs, first.trace + tr)
        case Threw(m, tr) =>
          ThrewAfter<seq<ColumnWithTasks>, seq<ColumnWithTasks>>(rest, first.trace, base, oracle);
          Threw(m, first.trace + tr)
  }

  lemma AcceptsSplit(oracle: Oracle, base: nat, n: nat, m: nat)
    ensures Accepts(oracle, base, 1 + n + m) <==>
              oracle(base).Accepted? && Accepts(oracle, base + 1, n) && Accepts(oracle, base + 1 + n, m)
  {
  }

  lemma RecreateCallsCons(boardId: string, cols: seq<DocColumn>, first: ColumnWithTasks, cs: seq<ColumnWithTasks>)
    requires |cols| > 0 && |cs| == |cols| - 1
    ensures RecreateCalls(boardId, cols, [first] + cs)
            == [Sent(CreateColumnCall(CreateColumnPayload(boardId, cols[0].title, cols[0].position)))]
               + TaskCalls(first.id, cols[0].tasks) + RecreateCalls(boardId, cols[1..], cs)
  {
    assert ([first] + cs)[1..] == cs;
  }

  lemma ColumnsMatchCons(boardId: string, cols: seq<DocColumn>, first: ColumnWithTasks, cs: seq<ColumnWithTasks>)
    requires |cols| > 0 && |cs| == |cols| - 1
    requires ColumnMatches(first, boardId, cols[0])
    requires forall i :: 0 <= i < |cs| ==> ColumnMatches(cs[i], boardId, cols[1..][i])
    ensures forall i :: 0 <= i < |cols| ==> ColumnMatches(([first] + cs)[i], boardId, cols[i])
  {
    forall i | 0 <= i < |cols| ensures ColumnMatches(([first] + cs)[i], boardId, cols[i]) {
      if i > 0 {
        assert ([first] + cs)[i] == cs[i - 1] && cols[1..][i - 1] == cols[i];
      }
    }
  }

  /** A run that threw after `pre` was sent threw at its own last call. */
  lemma ThrewAfter<T, U>(r: Run<T>, pre: seq<Event>, base: nat, oracle: Oracle)
    requires r.Threw? && ThrewAtLast(r, base + |pre|, oracle)
    ensures ThrewAtLast<U>(Threw(r.message, pre + r.trace), base, oracle)
  {
    assert base + |pre + r.trace| - 1 == base + |pre| + |r.trace| - 1;
  }

  // ---------------------------------------------------------------------------
  // importBoard
  // ---------------------------------------------------------------------------

  /** What a successful import returns. */
  datatype Imported = Imported(board: Board, columns: seq<ColumnWithTasks>)

  /** The calls before the recreation: the board lookup, then either the
      column listing and a delete per existing column, or the board
      create. */
  function Prelude(slug: string, existing: Option<Board>, existingCols: seq<Column>): (r: seq<Event>)
    ensures |r| == if existing.Some? then 2 + |existingCols| else 2
  {
    if existing.Some? then [Sent(GetBoardCall(slug)), Sent(GetColumnsCall(existing.value.id))] + DeleteCalls(existingCols)
    else [Sent(GetBoardCall(slug)), Sent(CreateBoardCall(slug))]
  }

  /** importBoard on the parsed text (`None` when it is not JSON), with the
      board the lookup finds and, when there is one, its columns. */
  function ImportBoard(parsed: Option<Document>, slug: string, existing: Option<Board>, existingCols: seq<Column>,
                       oracle: Oracle): (r: Run<Imported>)
    ensures parsed.None? ==> r == Threw(InvalidJson, [])
    ensures parsed.Some? && !ValidDocument(parsed.value) ==> r == Threw(InvalidFormat, [])
    ensures r.Done? ==> parsed.Some? && ValidDocument(parsed.value)
    ensures r.Done? ==>
              var cols := parsed.value.columns.value;
              && (existing.Some? ==> r.value.board == existing.value)
              && (existing.None? ==> oracle(1).Accepted? && r.value.board == CreatedBoard(slug, oracle(1)))
              && |r.value.columns| == |cols|
              && r.trace == Prelude(slug, existing, existingCols) + RecreateCalls(r.value.board.id, cols, r.value.columns)
              && forall i :: 0 <= i < |cols| ==> ColumnMatches(r.value.columns[i], r.value.board.id, cols[i])
    ensures parsed.Some? && ValidDocument(parsed.value) ==> ThrewAtLast(r, 0, oracle)
  {
    if parsed.None? then Threw(InvalidJson, [])
    else if !ValidDocument(parsed.value) then Threw(InvalidFormat, [])
    else
      var cols := parsed.value.columns.value;
      var get := Sent(GetBoardCall(slug));
      if oracle(0).Rejected? then Threw(ErrorMessage(oracle(0).error), [get])
      else
        var start := ClearOrCreate(slug, existing, existingCols, oracle);
        if start.Threw? then Threw(start.message, start.trace)
        else
          var board := start.value;
          var base := |start.trace|;
          var created := CreateColumns(board.id, cols, base, oracle);
          match created
          case Done(cs, tr) => Done(Imported(board, cs), start.trace + tr)
          case Threw(m, tr) => Threw(m, start.trace + tr)
  }

  /** After a successful lookup: clear the existing board or create one.
      Its trace starts with the lookup. */
  function ClearOrCreate(slug: string, existing: Option<Board>, existingCols: seq<Column>, oracle: Oracle)
    : (r: Run<Board>)
    requires oracle(0).Accepted?
    ensures r.Done? ==> r.trace == Prelude(slug, existing, existingCols)
    ensures r.Done? && existing.Some? ==> r.value == existing.value
    ensures r.Done? && existing.None? ==> oracle(1).Accepted? && r.value == CreatedBoard(slug, oracle(1))
    ensures r.Done? <==> oracle(1).Accepted? && (existing.Some? ==> Accepts(oracle, 2, |existingCols|))
    ensures ThrewAtLast(r, 0, oracle)
  {
    var get := Sent(GetBoardCall(slug));
    if existing.Some? then
      var list := Sent(GetColumnsCall(existing.value.id));
      if oracle(1).Rejected? then Threw(ErrorMessage(oracle(1).error), [get, list])
      else
        var del := DeleteAll(existingCols, 2, oracle);
        match del
        case Done(_, tr) => Done(existing.value, [get, list] + tr)
        case Threw(m, tr) => Threw(m, [get, list] + tr)
    else
      var create := Sent(CreateBoardCall(slug));
      if oracle(1).Rejected? then Threw(ErrorMessage(oracle(1).error), [get, create])
      else Done(CreatedBoard(slug, oracle(1)), [get, create])
  }

  // ---------------------------------------------------------------------------
  // Properties
  // ---------------------------------------------------------------------------

  /** When the store accepts every call, a valid document is imported. */
  lemma ImportSucceeds(d: Document, slug: string, existing: Option<Board>, existingCols: seq<Column>, oracle: Oracle)
    requires ValidDocument(d)
    requires forall k :: oracle(k).Accepted?
    ensures ImportBoard(Some(d), slug, existing, existingCols, oracle).Done?
  {
  }

  /** When the board exists, every existing column is deleted before the
      first column is created; otherwise the board is created first. */
  lemma ImportClearsFirst(d: Document, slug: string, existing: Option<Board>, existingCols: seq<Column>,
                          oracle: Oracle)
    requires ImportBoard(Some(d), slug, existing, existingCols, oracle).Done?
    ensures var r := ImportBoard(Some(d), slug, existing, existingCols, oracle);
            var p := if existing.Some? then 2 + |existingCols| else 2;
            && p <= |r.trace|
            && r.trace[0] == Sent(GetBoardCall(slug))
            && (existing.Some? ==>
                  && r.trace[1] == Sent(GetColumnsCall(existing.value.id))
                  && forall j :: 0 <= j < |existingCols| ==> r.trace[2 + j] == Sent(DeleteColumnCall(existingCols[j].id)))
            && (existing.None? ==> r.trace[1] == Sent(CreateBoardCall(slug)))
            && forall k :: p <= k < |r.trace| ==> !IsDelete(r.trace[k])
  {
    var r := ImportBoard(Some(d), slug, existing, existingCols, oracle);
    var cols := d.columns.value;
    var pre := Prelude(slug, existing, existingCols);
    var rest := RecreateCalls(r.value.board.id, cols, r.value.columns);
    assert r.trace == pre + rest;
    NoDeleteInRecreate(r.value.board.id, cols, r.value.columns);
    forall k | |pre| <= k < |r.trace| ensures !IsDelete(r.trace[k]) {
      assert r.trace[k] == rest[k - |pre|];
    }
    if existing.Some? {
      forall j | 0 <= j < |existingCols|
        ensures r.trace[2 + j] == Sent(DeleteColumnCall(existingCols[j].id))
      {
        assert r.trace[2 + j] == pre[2 + j] == DeleteCalls(existingCols)[j];
      }
    }
  }

  predicate IsDelete(e: Event)
  {
    e.Sent? && e.call.DeleteColumnCall?
  }

  /** Recreating sends only creates. */
  lemma {:induction false} NoDeleteInRecreate(boardId: string, cols: seq<DocColumn>, created: seq<ColumnWithTasks>)
    requires |created| == |cols|
    ensures forall k :: 0 <= k < CallCount(cols) ==>
              var e := RecreateCalls(boardId, cols, created)[k];
              e.Sent? && (e.call.CreateColumnCall? || e.call.CreateTaskCall?)
    decreases |cols|
  {
    if |cols| > 0 {
      NoDeleteInRecreate(boardId, cols[1..], created[1..]);
      var head := [Sent(CreateColumnCall(CreateColumnPayload(boardId, cols[0].title, cols[0].position)))]
                  + TaskCalls(created[0].id, cols[0].tasks);
      var tail := RecreateCalls(boardId, cols[1..], created[1..]);
      assert RecreateCalls(boardId, cols, created) == head + tail;
      forall k | 0 <= k < CallCount(cols)
        ensures var e := RecreateCalls(boardId, cols, created)[k];
                e.Sent? && (e.call.CreateColumnCall? || e.call.CreateTaskCall?)
      {
        if k >= |head| {
          assert RecreateCalls(boardId, cols, created)[k] == tail[k - |head|];
        }
      }
    }
  }

  /** Export followed by import reproduces the board's content: the column
      titles and positions, and the task titles, descriptions, priorities
      and positions, in order. */
  lemma ExportImportRoundTrip(slug: string, columns: seq<ColumnWithTasks>, at: string, existing: Option<Board>,
                              existingCols: seq<Column>, oracle: Oracle)
    requires ImportBoard(Some(Parsed(ExportBoard(slug, columns, at))), slug, existing, existingCols, oracle).Done?
    ensures SameContent(
              ImportBoard(Some(Parsed(ExportBoard(slug, columns, at))), slug, existing, existingCols, oracle).value.columns,
              columns)
  {
    var e := ExportBoard(slug, columns, at);
    var d := Parsed(e);
    var r := ImportBoard(Some(d), slug, existing, existingCols, oracle).value.columns;
    var doc := d.columns.value;
    forall i | 0 <= i < |columns| ensures SameColumnContent(r[i], columns[i]) {
      assert doc[i] == ParsedColumn(e.columns[i]);
      assert e.columns[i] == ExportColumnOf(columns[i]);
      assert ColumnMatches(r[i], ImportBoard(Some(d), slug, existing, existingCols, oracle).value.board.id, doc[i]);
      forall j | 0 <= j < |columns[i].tasks| ensures SameTaskContent(r[i].tasks[j], columns[i].tasks[j]) {
        assert TaskMatches(r[i].tasks[j], r[i].id, doc[i].tasks[j]);
      }
    }
  }
}
