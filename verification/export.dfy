/** The document exportBoard builds (src/lib/export.ts) before it is turned
    into JSON and downloaded: the version, the export time, the slug, and
    for each column its title, position and tasks, for each task its title,
    description, priority and position. */
module Export {
  import opened Wrappers
  import opened Types

  /** The only version the exporter writes and the importer accepts. */
  const ExportVersion: int := 1

  datatype ExportTask = ExportTask(title: string, description: Option<string>, priority: Priority, position: int)

  datatype ExportColumn = ExportColumn(title: string, position: int, tasks: seq<ExportTask>)

  datatype ExportData = ExportData(version: int, exportedAt: string, slug: string, columns: seq<ExportColumn>)

  function ExportTaskOf(t: Task): ExportTask
  {
    ExportTask(t.title, t.description, t.priority, t.position)
  }

  function ExportColumnOf(c: ColumnWithTasks): (r: ExportColumn)
    ensures |r.tasks| == |c.tasks|
    ensures forall j :: 0 <= j < |c.tasks| ==> r.tasks[j] == ExportTaskOf(c.tasks[j])
  {
    ExportColumn(c.title, c.position, seq(|c.tasks|, j requires 0 <= j < |c.tasks| => ExportTaskOf(c.tasks[j])))
  }

  /** The exported document; `exportedAt` is the clock's ISO-8601 reading. */
  function ExportBoard(slug: string, columns: seq<ColumnWithTasks>, exportedAt: string): (e: ExportData)
    ensures e.version == ExportVersion && e.slug == slug && e.exportedAt == exportedAt
    ensures |e.columns| == |columns|
    ensures forall i :: 0 <= i < |columns| ==> e.columns[i] == ExportColumnOf(columns[i])
  {
    ExportData(ExportVersion, exportedAt, slug,
               seq(|columns|, i requires 0 <= i < |columns| => ExportColumnOf(columns[i])))
  }

  /** Two tasks agree on what an export records. */
  predicate SameTaskContent(a: Task, b: Task)
  {
    a.title == b.title && a.description == b.description && a.priority == b.priority && a.position == b.position
  }

  /** Two columns agree on what an export records: title, position, and
      task by task the task content, in order. */
  predicate SameColumnContent(a: ColumnWithTasks, b: ColumnWithTasks)
  {
    && a.title == b.title && a.position == b.position && |a.tasks| == |b.tasks|
    && forall j :: 0 <= j < |a.tasks| ==> SameTaskContent(a.tasks[j], b.tasks[j])
  }

  /** Two boards agree on what an export records, column by column in
      order. */
  predicate SameContent(a: seq<ColumnWithTasks>, b: seq<ColumnWithTasks>)
  {
    |a| == |b| && forall i :: 0 <= i < |a| ==> SameColumnContent(a[i], b[i])
  }

  lemma ExportColumnExactly(a: ColumnWithTasks, b: ColumnWithTasks)
    ensures ExportColumnOf(a) == ExportColumnOf(b) <==> SameColumnContent(a, b)
  {
    var ea, eb := ExportColumnOf(a), ExportColumnOf(b);
    if SameColumnContent(a, b) {
      assert ea.tasks == eb.tasks by {
        forall j | 0 <= j < |a.tasks| ensures ea.tasks[j] == eb.tasks[j] {
          assert SameTaskContent(a.tasks[j], b.tasks[j]);
        }
      }
    }
    if ea == eb {
      forall j | 0 <= j < |a.tasks| ensures SameTaskContent(a.tasks[j], b.tasks[j]) {
        assert ea.tasks[j] == eb.tasks[j];
      }
    }
  }

  /** An export records exactly the column titles and positions and the
      task titles, descriptions, priorities and positions: two boards give
      the same document if and only if they agree on those. Ids, column and
      board references, the collapsed flag and timestamps are not
      recorded. */
  lemma ExportRecordsExactly(slug: string, a: seq<ColumnWithTasks>, b: seq<ColumnWithTasks>, at: string)
    ensures ExportBoard(slug, a, at) == ExportBoard(slug, b, at) <==> SameContent(a, b)
  {
    var ea, eb := ExportBoard(slug, a, at), ExportBoard(slug, b, at);
    if SameContent(a, b) {
      assert ea.columns == eb.columns by {
        forall i | 0 <= i < |a| ensures ea.columns[i] == eb.columns[i] {
          ExportColumnExactly(a[i], b[i]);
        }
      }
    }
    if ea == eb {
      forall i | 0 <= i < |a| ensures SameColumnContent(a[i], b[i]) {
        assert ea.columns[i] == eb.columns[i];
        ExportColumnExactly(a[i], b[i]);
      }
    }
  }
}
