# OpenKanban board core in Dafny

OpenKanban is a shared kanban board addressed by a URL slug. Anyone who opens a
slug sees the same columns and tasks. A board is kept only in the browser until
its first task is added. From then on it lives in a remote store, and every
change is sent there and broadcast to the other viewers.

This project models the core of that system as pure functions over immutable
datatypes:

- **The board store** (`src/hooks/use-board.ts`). The state is a record holding
  the slug, the board, an unpersisted/persisted lifecycle and a sequence of
  columns, each carrying its tasks. Every store operation is a function from a
  state to an `Outcome`: the new state plus the trace of events sent to the
  remote store.
  - A trace entry is either `Sent(call)` or `MutationDone`, the callback that
    drives the broadcast.
  - The remote store is an oracle. It maps the position of a call in the trace
    to `Accepted(newId, stamp)` or `Rejected(error)`.
- **Remote-call shaping** (`src/lib/db.ts`). This covers:
  - the error-message formatter;
  - the id de-duplication of the position batches (last value wins, first
    occurrence fixes the order) and the entries sent for each;
  - the null and default mapping of task creates and updates.
- **Slug canonicalisation** (`src/proxy.ts`): the sanitiser and the decision to
  pass, redirect to `/`, or redirect with 308 to the canonical slug.
- **Mobile column navigation** (`src/hooks/use-column-swipe.ts`): the clamped
  index, the direction, and the swipe threshold rule.
- **The board views' handlers** (`src/components/board/mobile-board.tsx` and
  `src/components/board/board.tsx`). These are the guards that decide whether,
  and with which arguments, the store is asked to move a column or a task. They
  also cover the confirmed deletes and the import flow.
- **Export and import** (`src/lib/export.ts`, `src/lib/import.ts`). Import
  validates the document, clears or creates the board, then recreates the
  columns and tasks in order. Exporting a board and importing the result
  reproduces its content.
- **The toolbar title and presence badge**
  (`src/components/board/board-toolbar.tsx`).

Modules follow the source layout:

| module | file |
|---|---|
| `Types` | `types.dfy` |
| `Db` | `db.dfy` |
| `BoardState`, `BoardColumns`, `BoardTasks`, `BoardAddTask` | `board_*.dfy`, split by operation group |
| `Proxy` | `proxy.dfy` |
| `ColumnSwipe` | `column_swipe.dfy` |
| `MobileBoard` | `mobile_board.dfy` |
| `DesktopBoard` | `desktop_board.dfy` |
| `Export` | `export.dfy` |
| `Import` | `import.dfy` |
| `Toolbar` | `toolbar.dfy` |

Shared helpers live in `wrappers.dfy` (`Option`/`Result`) and `js_array.dfy`
(the JavaScript `splice` index rules, `findIndex`).

## Behaviour worth noting

- **Nothing is rolled back.** A rejected remote call throws, and the steps after
  it do not happen. Local state that was already changed stays changed.
  - Batch position updates swallow their errors and still fire the mutation
    callback.
  - A rejected column delete is only logged.
- **A failed task create leaves local column ids.** The first task added to an
  unpersisted board creates the board, then every column, then the task. If
  only the task create fails, the board is already marked persisted, but the
  columns still carry their local ids (`BoardAddTask.BootstrapTaskRejected`).
- **Stale swipe back.** The mobile back swipe steps the *stored* index back by
  one, not the shown index. After columns have gone away, one right swipe can
  therefore leave the shown column unchanged (`ColumnSwipe.StaleIndexSwipeBack`).
- **Immediate navigation on mobile delete.** The comment in
  `src/components/board/mobile-board.tsx` at line 74 says the left step is
  "handled after confirm". The code instead moves the view one column left at
  once, before the confirmation is answered
  (`MobileBoard.DeleteRequestNavigatesAtOnce`).

## Model

| member | source | states |
|---|---|---|
| Types.PriorityNameRoundTrip | src/lib/types.ts:1 | a text parses to a priority exactly when it is that priority's name ("low", "medium", "high" or "urgent"), so the names are the only accepted texts |
| Types.ParsePriority | src/lib/types.ts:1 | a parsed priority is one whose name is the text parsed |
| Types.WithTasks | src/lib/types.ts:31-33 | a column with tasks is a column plus an ordered task list: dropping the list gives the column back, and the list is the one given |
| Db.ErrorMessage | src/lib/db.ts:14-24 | an error object's message starts with "Supabase Error: " and the message; its length is that of the prefix plus one " (Code: c)", " Details: d", " Hint: h" part per present field; with no extra field it is exactly the prefix and message; a non-object error gives its string form |
| Db.ErrorMessageCodeFirst | src/lib/db.ts:17-19 | a present code comes directly after the message |
| Db.ErrorMessageDetailsAfterMessage | src/lib/db.ts:17-20 | without a code, present details come directly after the message |
| Db.ErrorMessageDetailsAfterCode | src/lib/db.ts:17-19 | with a code, present details come directly after the code part, so together with the hint suffix and the length the whole message is fixed |
| Db.ErrorMessageHintLast | src/lib/db.ts:19-21 | a present hint ends the message |
| Db.ErrorMessageDetailsLast | src/lib/db.ts:19-21 | without a hint, present details end the message |
| Db.CreateTaskParamsOf | src/lib/db.ts:174-179 | createTask sends column, title and position as given, the description as given or null, and the priority as given or "medium" |
| Db.CreateTaskDefaultPriority | src/lib/db.ts:178 | a create without a priority sends the same parameters as one asking for "medium" |
| Db.UpdateTaskParamsOf | src/lib/db.ts:192-201 | updateTask sends each optional field as given or null; the description is non-null exactly when it is present and not null |
| Db.ClearedDescriptionLooksAbsent | src/lib/db.ts:197 | an update clearing the description sends the same parameters as one leaving it out |
| Db.DedupIsDedup | src/lib/db.ts:134-136 | the Map-based de-duplication keeps one entry per distinct id, each the last occurrence of its id, ordered by first occurrence |
| Db.ColumnPositionsBatch | src/lib/db.ts:128-149 | no batch for an empty list; otherwise one entry per distinct id, whose id, position, title and collapsed flag are those of the last update with that id, with every update's id covered, in first-occurrence order |
| Db.TaskPositionsBatch | src/lib/db.ts:218-242 | no batch for an empty list; otherwise one entry per distinct id, whose id, column, position, title, description and priority are those of the last update with that id, with every update's id covered, in first-occurrence order |
| Proxy.Normalize | src/proxy.ts:29-33 | lower-casing and the three character replacements map each character on its own to one of [a-z0-9-] |
| Proxy.CollapseDashesShape | src/proxy.ts:34 | collapsing dash runs leaves no "--", keeps the first character, the charset and the non-dash characters, and changes nothing without a double dash |
| Proxy.TrimDashes | src/proxy.ts:35 | trimming leaves no edge dash, keeps the charset, the absence of "--" and the non-dash characters, and changes nothing without an edge dash |
| Proxy.Sanitize | src/proxy.ts:27-36 | the sanitised slug uses only [a-z0-9-], has no "--" and no leading or trailing '-' |
| Proxy.SanitizeKeepsAlnum | src/proxy.ts:29-35 | removing the dashes from the output gives the input's ASCII letters (lower-cased) and digits in order |
| Proxy.SanitizeFixesSlugs | src/proxy.ts:27-36 | a string that is already a clean slug is left unchanged |
| Proxy.SanitizeIdempotent | src/proxy.ts:27-36 | sanitising twice gives what sanitising once gives |
| Proxy.SanitizeExampleBoard | src/proxy.ts:29-35 | "My Board!!" becomes "my-board" |
| Proxy.SanitizeExampleEmpty | src/proxy.ts:29-35 | "!!!" becomes the empty slug |
| Proxy.FullPath | src/proxy.ts:60 | the path, query and hash joined, without the leading character |
| Proxy.Decide | src/proxy.ts:48-80 | "/" and ignored prefixes pass; a redirect clears query and hash, and is a 307 to "/" or a 308 to "/" plus the sanitised full path when that differs from it; a pass otherwise means the full path is empty or already sanitised |
| Proxy.RedirectSettles | src/proxy.ts:71-76 | following a redirect leads to a request that passes, so redirects do not loop, when the decoder leaves the sanitised slug unchanged (it holds no `%`) |
| Proxy.CleanPathPasses | src/proxy.ts:52-79 | the path of a clean slug passes through |
| Proxy.QueryIsRedirected | src/proxy.ts:60-76 | a path with a query string is always redirected |
| BoardState.MakeLocalColumn | src/hooks/use-board.ts:36-50 | a local column gets the given id, or "local-" plus a fresh uuid; it has the given title and position, no board, is not collapsed and has no tasks |
| BoardState.InitialColumn | src/hooks/use-board.ts:52-62 | the placeholder column is "local-initial-todo", titled "To Do", at position 0, empty |
| BoardState.OrPlaceholder | src/hooks/use-board.ts:96-98 | an empty column list is replaced by the placeholder column; a non-empty one is kept |
| BoardState.Initial | src/hooks/use-board.ts:71-74 | the initial state is valid (at least one column; persisted exactly when a board is given) and holds the given columns or the placeholder |
| BoardState.Refresh | src/hooks/use-board.ts:90-100 | a missing board changes nothing; a found board becomes the persisted board with its columns or the placeholder |
| BoardState.ReplaceState | src/hooks/use-board.ts:450-460 | the received board and columns replace the state, which stays valid and is persisted exactly when the board is non-null |
| BoardState.RemoveBoard | src/hooks/use-board.ts:437-445 | a persisted board is deleted remotely; unless that delete is rejected, the state resets to an unpersisted board with only the placeholder column |
| BoardState.WholeStateOpsKeepValid | src/hooks/use-board.ts:71-74 | refresh, replace and remove-board keep the state valid |
| BoardState.ColumnIndex | src/hooks/use-board.ts:237 | the index of the first column with the id, or -1 exactly when there is none |
| BoardState.RenumberColumns | src/hooks/use-board.ts:193 | renumbering sets each column's position to its index and changes nothing else |
| BoardState.RenumberTasks | src/hooks/use-board.ts:342 | renumbering sets each task's position to its index and changes nothing else |
| BoardColumns.AddColumn | src/hooks/use-board.ts:133-158 | unpersisted: one local column titled as given or "Untitled", at the old count, uncollapsed and empty, is appended with no remote call; persisted: a create is sent and, only if accepted, the created column is appended and the callback fires |
| BoardColumns.RenameColumn | src/hooks/use-board.ts:160-171 | only the title of the column with the id changes; an update carrying only the title is sent when persisted and the id is not local |
| BoardColumns.ToggleColumnCollapse | src/hooks/use-board.ts:173-186 | only the collapsed flag of the column with the id changes; an update carrying only the flag is sent when persisted and the id is not local |
| BoardColumns.ColumnEditRemoteRule | src/hooks/use-board.ts:160-186 | a column edit sends nothing exactly when the board is unpersisted or the id is local, and fires the callback exactly when the update is sent and accepted |
| BoardColumns.RemoveColumn | src/hooks/use-board.ts:188-222 | with one column nothing happens; otherwise the column is filtered out and the rest renumbered, and when persisted a delete is sent, followed on acceptance by the renumbered positions batch and the callback |
| BoardColumns.RemoveColumnRemovesExactly | src/hooks/use-board.ts:188-193 | with distinct ids, removing column k leaves the others in order, one fewer, with positions 0..n-2 |
| BoardColumns.RemoveColumnAbsent | src/hooks/use-board.ts:192-193 | removing an absent id only renumbers |
| BoardColumns.RemoveColumnKeepsValid | src/hooks/use-board.ts:190 | with distinct ids, removing a column never leaves the board without columns |
| BoardColumns.MoveColumn | src/hooks/use-board.ts:407-432 | a source index naming no column changes nothing; otherwise the columns are spliced and renumbered, and when persisted the positions batch and the callback follow |
| BoardColumns.MoveColumnPermutes | src/hooks/use-board.ts:407-413 | moving a column gives a permutation of the same columns (ignoring positions), with the moved column at the splice destination and positions equal to indices |
| BoardColumns.MoveColumnInPlace | src/hooks/use-board.ts:409-413 | moving a column onto its own index only renumbers |
| BoardColumns.ColumnOpsKeepValid | src/hooks/use-board.ts:133-186 | adding, renaming, collapsing and moving columns keep the state valid |
| BoardTasks.EditTask | src/hooks/use-board.ts:312-333 | only the task with the id takes the given title, description and priority; the update is always sent, and the callback fires only on acceptance |
| BoardTasks.EditTaskChangesOnlyTarget | src/hooks/use-board.ts:321-328 | other tasks are untouched; the edited task takes each title, description and priority the edit gives, keeps the ones it leaves out, and keeps every other field |
| BoardTasks.RemoveTask | src/hooks/use-board.ts:335-349 | every column loses the task with the id and is renumbered; the delete is always sent, and the callback fires only on acceptance |
| BoardTasks.RemoveTaskSpec | src/hooks/use-board.ts:337-344 | after removal no column holds the id, every other id keeps its count, and positions equal indices |
| BoardTasks.RemoveTaskKeepsOrder | src/hooks/use-board.ts:338-343 | removing a task whose id is unique in its column keeps the other tasks in their relative order: those before it keep their index, those after it move up by one, all renumbered |
| BoardTasks.DropTaskIds | src/hooks/use-board.ts:341 | filtering removes every occurrence of the id and keeps every other id's count |
| BoardTasks.PlanMove | src/hooks/use-board.ts:366-371 | a move is planned exactly when both columns exist and the source index, after splice normalisation, names a task |
| BoardTasks.ApplyMove | src/hooks/use-board.ts:370-381 | the moved task lands at the destination with the destination's column id; source and destination are renumbered, their sizes change by one (or not at all within a column), and other columns are untouched |
| BoardTasks.MoveTask | src/hooks/use-board.ts:354-405 | an unknown column or source index changes nothing; otherwise the planned move is applied, and when persisted one positions batch of the affected columns' tasks and the callback follow |
| BoardTasks.MoveTaskKeepsTaskIds | src/hooks/use-board.ts:361-381 | moving a task keeps the multiset of task ids on the board |
| BoardTasks.MoveWithinKeepsTaskIds | src/hooks/use-board.ts:370-381 | a move within a column keeps the board's task ids |
| BoardTasks.MoveAcrossKeepsTaskIds | src/hooks/use-board.ts:370-381 | a move across columns keeps the board's task ids |
| BoardTasks.MoveAcrossKeepsOrder | src/hooks/use-board.ts:370-381 | a move across columns closes the gap in the source column and opens one at the landing index in the destination: every other task keeps its relative order and its fields, with its new index as position |
| BoardTasks.MoveWithinKeepsOrder | src/hooks/use-board.ts:370-381 | a move within a column takes the task's id out of the id order and puts it back at the landing index |
| BoardTasks.MoveTaskInPlace | src/hooks/use-board.ts:370-381 | moving a task onto its own index leaves the column's order unchanged |
| BoardTasks.TaskOpsKeepValid | src/hooks/use-board.ts:312-405 | editing, removing and moving tasks keep the state valid |
| BoardAddTask.CreateColumnsFrom | src/hooks/use-board.ts:112-120 | columns are created in list order with position = index; the run stops at the first rejection and is complete exactly when every create is accepted, recording each new id |
| BoardAddTask.IdMapDistinct | src/hooks/use-board.ts:119 | with distinct local ids, each local id maps to the id created for it |
| BoardAddTask.Remap | src/hooks/use-board.ts:248-256 | every column takes its mapped id and the new board id, and the task is appended only to the column whose new id is the target |
| BoardAddTask.Bootstrap | src/hooks/use-board.ts:105-128 | the board create comes first; a rejection leaves the state as it was; the board becomes persisted only when the board and every column were created |
| BoardAddTask.BootstrapSucceedsTrace | src/hooks/use-board.ts:231-259 | when all is accepted the trace is the board create, one create per column in order, the task create under the mapped column at the old task count, and the callback |
| BoardAddTask.BootstrapSucceedsColumns | src/hooks/use-board.ts:234-256 | when all is accepted every column carries its new id and the board id, and the task is appended only to the target column |
| BoardAddTask.BootstrapPersistsOnlyComplete | src/hooks/use-board.ts:109-124 | any rejected board or column create leaves the state unchanged |
| BoardAddTask.BootstrapTaskRejected | src/hooks/use-board.ts:231-259 | if only the task create is rejected the board is persisted but the columns keep their local ids, and no callback fires |
| BoardAddTask.AddTaskPersisted | src/hooks/use-board.ts:262-304 | on a persisted board, a local target column is first created remotely (a rejection stops there); otherwise the task create is sent at the target's task count |
| BoardAddTask.RecoverySucceeds | src/hooks/use-board.ts:267-304 | recovering a local column renames it to the created id and appends the task there, leaving other columns alone |
| BoardAddTask.RecoveryTaskRejected | src/hooks/use-board.ts:267-295 | if the recovered column is created but the task is rejected, the column keeps its new id and no callback fires |
| BoardAddTask.PersistedAddToColumn | src/hooks/use-board.ts:286-304 | adding to a remote column sends one create at the task count and appends the created task |
| BoardAddTask.AddTask | src/hooks/use-board.ts:227-310 | an unpersisted board bootstraps and a persisted one adds directly; a missing priority means "medium" |
| BoardAddTask.AddTaskKeepsValid | src/hooks/use-board.ts:227-310 | adding a task keeps the state valid |
| ColumnSwipe.SafeIndex | src/hooks/use-column-swipe.ts:33 | the shown index is the stored one pulled back onto the last column, and lies in [0, total-1] when there is a column |
| ColumnSwipe.GoToPrev | src/hooks/use-column-swipe.ts:35-38 | direction -1, one step back, never below 0 |
| ColumnSwipe.GoToNext | src/hooks/use-column-swipe.ts:40-43 | direction 1, one step forward, never past total-1 |
| ColumnSwipe.GoTo | src/hooks/use-column-swipe.ts:46-53 | the target clamped into [0, total-1]; direction 1 exactly when the clamped target lies past the shown index, else -1 |
| ColumnSwipe.DragEndRule | src/hooks/use-column-swipe.ts:56-72 | a left swipe (offset < -50 or speed < -300) advances unless on the last column; failing that, a right swipe goes back unless on the first; anything else changes nothing |
| ColumnSwipe.LeftWins | src/hooks/use-column-swipe.ts:65-69 | a gesture that is both a left and a right swipe advances whenever a next column exists, and steps back only when the last column is shown |
| ColumnSwipe.SmallDragIgnored | src/hooks/use-column-swipe.ts:60-69 | a drag within both thresholds changes nothing |
| ColumnSwipe.StaleIndexSwipeBack | src/hooks/use-column-swipe.ts:35-38 | with a stale stored index, a back swipe can leave the shown column unchanged |
| ColumnSwipe.RunKeepsIndex | src/hooks/use-column-swipe.ts:33-72 | from a non-negative index, any sequence of navigations keeps the stored index non-negative and the shown index on a column |
| ColumnSwipe.SafeIndexAlwaysInRange | src/hooks/use-column-swipe.ts:22-33 | from the hook's start state the shown index always names a column |
| MobileBoard.ShiftLeft | src/components/board/mobile-board.tsx:59-63 | on the first column nothing happens; otherwise the store is asked to move column i to i-1 and the view goes to i-1 |
| MobileBoard.ShiftRight | src/components/board/mobile-board.tsx:65-69 | on the last column nothing happens; otherwise the store is asked to move column i to i+1 and the view goes to i+1 |
| MobileBoard.ShiftLeftFollowsColumn | src/components/board/mobile-board.tsx:59-63 | after a left shift the view shows the same column, now one place further left |
| MobileBoard.ShiftRightFollowsColumn | src/components/board/mobile-board.tsx:65-69 | after a right shift the view shows the same column, now one place further right |
| MobileBoard.DeleteColumn | src/components/board/mobile-board.tsx:71-78 | the active column's deletion is requested, and the view moves one left when not on the first column |
| MobileBoard.DeleteColumnShowsNeighbour | src/components/board/mobile-board.tsx:71-78 | once the deletion is done, the view shows the left neighbour, or the new first column when the first was deleted |
| MobileBoard.DeleteRequestNavigatesAtOnce | src/components/board/mobile-board.tsx:71-78 | the view moves left when the deletion is requested, before it is confirmed |
| MobileBoard.MoveTaskToColumn | src/components/board/mobile-board.tsx:80-91 | a move is asked for exactly when the task is in the active column and the target exists; the destination index is the target's task count |
| MobileBoard.MoveToColumnAppends | src/components/board/mobile-board.tsx:80-91 | the moved task ends up last in the target column, carrying the target's id |
| MobileBoard.MoveTaskUp | src/components/board/mobile-board.tsx:93-98 | a move from k to k-1 within the column is asked for exactly when the task is in the active column and not first |
| MobileBoard.MoveUpSwaps | src/components/board/mobile-board.tsx:93-98 | moving up swaps the task with its predecessor and renumbers |
| MobileBoard.MoveTaskDown | src/components/board/mobile-board.tsx:100-105 | a move from k to k+1 within the column is asked for exactly when the task is in the active column and not last |
| MobileBoard.MoveDownSwaps | src/components/board/mobile-board.tsx:100-105 | moving down swaps the task with its successor and renumbers |
| MobileBoard.MoveUpAt | src/hooks/use-board.ts:370-381 | moving the task at k of a column to k-1 swaps its id with its predecessor's and leaves positions equal to indices |
| MobileBoard.MoveDownAt | src/hooks/use-board.ts:370-381 | moving the task at k of a column to k+1 swaps its id with its successor's and leaves positions equal to indices |
| DesktopBoard.OnDragEnd | src/components/board/board.tsx:81-100 | no move exactly when there is no destination or it is the source; otherwise a task move with the droppable ids and indices unchanged |
| DesktopBoard.DropInPlaceSkipped | src/components/board/board.tsx:84-90 | the drops turned away are ones whose move would keep the column's order |
| DesktopBoard.ShiftLeftSwaps | src/components/board/board.tsx:210-215 | shift-left is offered exactly when index > 0, and its move(index, index-1) swaps the column with its left neighbour |
| DesktopBoard.ShiftRightSwaps | src/components/board/board.tsx:211-216 | shift-right is offered exactly when index < n-1, and its move(index, index+1) swaps the column with its right neighbour |
| DesktopBoard.UnguardedShiftLeftWraps | src/components/board/board.tsx:210-215 | without the guard, move(0, -1) would put the first column next-to-last |
| DesktopBoard.DeleteFlagMatchesStore | src/components/board/board.tsx:209 | delete is offered exactly when the store would remove the column (more than one column) |
| DesktopBoard.HandleDeleteColumn | src/components/board/board.tsx:114-118 | a pending column is removed and the dialog closed; with none pending nothing happens |
| DesktopBoard.HandleDeleteTask | src/components/board/board.tsx:121-129 | a pending task is removed; on acceptance the dialog closes and so does the editor if it shows that task; on rejection the removal throws and both stay open |
| DesktopBoard.DeletedTaskGone | src/components/board/board.tsx:121-129 | after an accepted delete no column holds the task and the editor does not show it |
| DesktopBoard.HandleDeleteBoard | src/components/board/board.tsx:103-111 | the board is removed and the dialog is closed and no longer busy whatever happens |
| DesktopBoard.HandleImport | src/components/board/board.tsx:149-169 | import, then reload, then broadcast and the success toast, in that order; the broadcast happens exactly when the import and the reload succeed; any thrown error shows its message and stops the rest |
| DesktopBoard.InvalidFileRejected | src/components/board/board.tsx:156-165 | an unparseable or invalid file sends nothing, changes nothing and shows the import's reason |
| DesktopBoard.ValidFileImported | src/components/board/board.tsx:156-160 | when every call succeeds a valid file ends with the reloaded board persisted, the viewers told and the success toast |
| Export.ExportColumnOf | src/lib/export.ts:30-38 | an exported column keeps its tasks' order and count, copying only title, description, priority and position |
| Export.ExportBoard | src/lib/export.ts:24-41 | the document has version 1, the slug and the export time, and one exported column per column in board order |
| Export.ExportColumnExactly | src/lib/export.ts:30-39 | two columns export alike exactly when they agree on title, position and task content |
| Export.ExportRecordsExactly | src/lib/export.ts:24-41 | two boards export alike exactly when they agree on column titles and positions and task titles, descriptions, priorities and positions; ids, column and board references, the collapsed flag and timestamps are not recorded |
| Import.Parsed | src/lib/import.ts:25-34 | the parsed form of an exported document carries its version and all its columns |
| Import.DeleteAll | src/lib/import.ts:41-45 | existing columns are deleted in order; the loop completes exactly when every delete is accepted and otherwise stops at the rejected one with its error message |
| Import.TaskParams | src/lib/import.ts:62-68 | a task is created under the new column with its title and position, its description, and its priority or "medium" |
| Import.CreateTasks | src/lib/import.ts:59-70 | a column's tasks are created in document order; the loop completes exactly when every create is accepted, giving tasks matching the document under the new column |
| Import.CreateColumn | src/lib/import.ts:54-73 | a column is created with the document's title and position, then its tasks under the new id |
| Import.CreateColumns | src/lib/import.ts:54-76 | when every create is accepted the columns are created in document order, each followed by its tasks, and the result matches the document column by column |
| Import.ClearOrCreate | src/lib/import.ts:39-49 | after the lookup, an existing board has its columns listed and deleted, otherwise the board is created |
| Import.ImportBoard | src/lib/import.ts:25-76 | unparseable input fails with "Invalid JSON file" and a wrong version or missing columns with "Invalid export format", both before any call; a completed import sent the lookup, the clearing or board create, then the recreation, and returns columns matching the document |
| Import.ImportSucceeds | src/lib/import.ts:32-76 | with every call accepted, a valid document is imported |
| Import.ImportClearsFirst | src/lib/import.ts:39-76 | every existing column is deleted (or the board created) before the first create, and nothing is deleted afterwards |
| Import.NoDeleteInRecreate | src/lib/import.ts:54-71 | the recreation sends only column and task creates |
| Import.ExportImportRoundTrip | src/lib/import.ts:54-76 | importing an exported board reproduces its column titles and positions and its task titles, descriptions, priorities and positions, in order |
| Toolbar.FormattedTitle | src/components/board/board-toolbar.tsx:30 | the title is the slug with each '-' shown as a space and every other character kept |
| Toolbar.Split | src/components/board/board-toolbar.tsx:31 | splitting on spaces gives at least one piece and no piece contains a space |
| Toolbar.JoinSplit | src/components/board/board-toolbar.tsx:31-34 | joining the pieces with single spaces gives back the split text |
| Toolbar.SplitJoin | src/components/board/board-toolbar.tsx:31-34 | splitting the join of space-free pieces gives back the pieces |
| Toolbar.ShortTitleShownWhole | src/components/board/board-toolbar.tsx:32-35 | a title of at most five words is shown whole |
| Toolbar.LongTitleCut | src/components/board/board-toolbar.tsx:32-35 | a longer title is shown as its first five words, a prefix ending before a space, followed by "..." |
| Toolbar.PresenceBadge | src/components/board/board-toolbar.tsx:49-66 | the badge is hidden exactly when the viewer is alone on a live connection; when shown it carries the viewer count, and its dot is green and pulsing exactly when connected |

## Left out

- Remote transport, realtime broadcast and presence are out of scope. The store is an oracle indexed by the position of each call, and `MutationDone` stands for the callback that triggers the broadcast.
- Concurrency is not modelled: each operation is atomic. Interleaved async operations, stale React closures and last-write-wins between clients are not represented.
- Rows returned by creates are taken to echo the payload, with the oracle's fresh id and timestamp, because the server is not visible.
- The data returned by reads are parameters: `getBoard`, `getColumns` and `getFullBoard`.
- Percent-decoding in the slug sanitiser is a function parameter (`decode`). Its fallback for malformed escapes is not modelled, and Unicode case mapping beyond ASCII is left out.
- The worked example "--weird__name--" is not stated as a lemma. Its general properties (charset, no "--", no edge dash) are proved for every input.
- JSON parsing and file reading are represented by `Option<Document>`. A document whose `columns` entries lack a `tasks` array would make the source throw a TypeError, which is not modelled.
- Document priorities are typed as `Priority`, whereas the source casts any string. The export download, the filename and the clock reading (`exportedAt`) are not modelled; the clock reading is a parameter.
- handleExport only wraps the export in a toast and is left out. So are the task-edit handlers, which only open and close dialogs.
- The direct `updateColumn` null mapping is represented by the `Option` fields of `UpdateColumnPayload`, where absent means null.
- moveTask copies the column arrays but not the task objects, and then sets `column_id` and `position` on task objects that the previous state shares (src/hooks/use-board.ts:373-380). The model works on values, so the previous state is not altered. The new state holds the same values either way; only a reader of the old state could tell the difference, and none exists in the model.
- ColumnSwipe.SafeIndex: with no columns at all, goToNext stores index -1. The range properties are stated for a board with at least one column, which is the only case the mobile view renders.
- BoardColumns.RemoveColumnKeepsValid requires distinct column ids: with duplicate ids the filter could remove every column.
- Import.ImportSucceeds states only success. What the imported columns contain is stated by Import.ImportBoard and Import.ExportImportRoundTrip.
