/** The records of src/lib/types.ts. Identifiers and timestamps are strings;
    a nullable field is an `Option`, an optional payload field too. */
module Types {
  import opened Wrappers

  /** The four task priorities. */
  datatype Priority = Low | Medium | High | Urgent

  /** The wire name of a priority. */
  function PriorityName(p: Priority): string
  {
    match p
    case Low => "low"
    case Medium => "medium"
    case High => "high"
    case Urgent => "urgent"
  }

  /** Reads a priority back from its wire name; any other text is rejected. */
  function ParsePriority(s: string): (r: Option<Priority>)
    ensures r.Some? ==> PriorityName(r.value) == s
  {
    if s == "low" then Some(Low)
    else if s == "medium" then Some(Medium)
    else if s == "high" then Some(High)
    else if s == "urgent" then Some(Urgent)
    else None
  }

  /** A text parses to a priority exactly when it is that priority's wire
      name: the four names are the only accepted texts, and each names one
      priority. */
  lemma PriorityNameRoundTrip(s: string, p: Priority)
    ensures ParsePriority(s) == Some(p) <==> s == PriorityName(p)
  {
  }

  datatype Board = Board(id: string, slug: string, created_at: string, updated_at: string)

  datatype Column = Column(
    id: string,
    board_id: string,
    title: string,
    position: int,
    is_collapsed: bool,
    created_at: string)

  /** A task; only `description` may be null. */
  datatype Task = Task(
    id: string,
    column_id: string,
    title: string,
    description: Option<string>,
    priority: Priority,
    position: int,
    created_at: string,
    updated_at: string)

  /** A column together with its ordered task list, the client-side shape. */
  datatype ColumnWithTasks = ColumnWithTasks(
    id: string,
    board_id: string,
    title: string,
    position: int,
    is_collapsed: bool,
    created_at: string,
    tasks: seq<Task>)
  {
    /** The column record without its tasks. */
    function AsColumn(): Column
    {
      Column(id, board_id, title, position, is_collapsed, created_at)
    }
  }

  /** `{ ...col, tasks }`: a column record extended with a task list. */
  function WithTasks(c: Column, tasks: seq<Task>): (r: ColumnWithTasks)
    ensures r.AsColumn() == c
    ensures r.tasks == tasks
  {
    ColumnWithTasks(c.id, c.board_id, c.title, c.position, c.is_collapsed, c.created_at, tasks)
  }

  /** Payload of createTask: description and priority are optional. */
  datatype CreateTaskPayload = CreateTaskPayload(
    column_id: string,
    title: string,
    description: Option<string>,
    priority: Option<Priority>,
    position: int)

  /** Payload of updateTask: everything but the id is optional, and the
      description may additionally be given as null (`Some(None)`). */
  datatype UpdateTaskPayload = UpdateTaskPayload(
    id: string,
    title: Option<string>,
    description: Option<Option<string>>,
    priority: Option<Priority>,
    column_id: Option<string>,
    position: Option<int>)

  datatype CreateColumnPayload = CreateColumnPayload(board_id: string, title: string, position: int)

  datatype UpdateColumnPayload = UpdateColumnPayload(
    id: string,
    title: Option<string>,
    position: Option<int>,
    is_collapsed: Option<bool>)
}
