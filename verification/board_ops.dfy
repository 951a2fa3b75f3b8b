/** The create / delete / rename helpers of the board (src/components/KanbanBoard.tsx,
    lines 53-100) and the per-column task view (line 169). Each builds a new list
    with spread, `filter` or `map`; the board then stores that list. */
module BoardOps {
  import opened Types
  import opened Lists
  import opened Decimal

  /** The content of a new task: `'Task ' + n`. */
  function DefaultTaskContent(n: nat): string {
    "Task " + DecimalString(n)
  }

  /** The title of a new column: `'Column ' + n`. */
  function DefaultColumnTitle(n: nat): string {
    "Column " + DecimalString(n)
  }

  // ---------------------------------------------------------------- tasks

  /** `createTask(columnId)` with the id `nanoid()` would draw. The column id is
      not checked against the columns. */
  function CreateTask(tasks: seq<Task>, id: string, columnId: string): (r: seq<Task>)
    ensures |r| == |tasks| + 1 && r[..|tasks|] == tasks
    ensures r[|tasks|].id == id && r[|tasks|].columnId == columnId
    ensures |r[|tasks|].content| > 5 && r[|tasks|].content[..5] == "Task "
    ensures r[|tasks|].content[5] != '0'
    ensures forall i :: 5 <= i < |r[|tasks|].content| ==> IsDigit(r[|tasks|].content[i])
    ensures DecimalValue(r[|tasks|].content[5..]) == |tasks| + 1
  {
    var content := DefaultTaskContent(|tasks| + 1);
    assert content[5..] == DecimalString(|tasks| + 1);
    DecimalRoundTrip(|tasks| + 1);
    tasks + [Task(id, columnId, content)]
  }

  /** With a fresh id, creating a task keeps task ids unique. */
  lemma CreateTaskKeepsIdsDistinct(tasks: seq<Task>, id: string, columnId: string)
    requires Distinct(TaskIds(tasks)) && id !in TaskIds(tasks)
    ensures Distinct(TaskIds(CreateTask(tasks, id, columnId)))
  {
    var r := CreateTask(tasks, id, columnId);
    forall i, j | 0 <= i < j < |r| ensures r[i].id != r[j].id {
      if j == |tasks| {
        assert TaskIds(tasks)[i] == r[i].id;
      } else {
        assert TaskIds(tasks)[i] != TaskIds(tasks)[j];
      }
    }
  }

  /** The predicate `task => task.id !== id` of `deleteTask`. */
  function TaskIdIsNot(id: string): Task -> bool {
    (t: Task) => t.id != id
  }

  /** `deleteTask(id)`: the tasks whose id differs, in their order. */
  function DeleteTask(tasks: seq<Task>, id: string): (r: seq<Task>)
    ensures |r| <= |tasks|
    ensures forall i :: 0 <= i < |r| ==> r[i] in tasks && r[i].id != id
    ensures forall i :: 0 <= i < |tasks| && tasks[i].id != id ==> tasks[i] in r
    ensures id !in TaskIds(r)
  {
    Filter(tasks, TaskIdIsNot(id))
  }

  /** Deleting an id no task has changes nothing. */
  lemma DeleteTaskAbsent(tasks: seq<Task>, id: string)
    requires id !in TaskIds(tasks)
    ensures DeleteTask(tasks, id) == tasks
  {
    forall i | 0 <= i < |tasks| ensures TaskIdIsNot(id)(tasks[i]) {
      assert TaskIds(tasks)[i] == tasks[i].id;
    }
    FilterKeepsAll(tasks, TaskIdIsNot(id));
  }

  /** With unique ids, deleting removes exactly the task at the id's position. */
  lemma DeleteTaskAt(tasks: seq<Task>, id: string)
    requires Distinct(TaskIds(tasks)) && id in TaskIds(tasks)
    ensures DeleteTask(tasks, id) == RemoveAt(tasks, IndexOf(TaskIds(tasks), id))
  {
    var k := IndexOf(TaskIds(tasks), id);
    forall i | 0 <= i < |tasks| && i != k ensures TaskIdIsNot(id)(tasks[i]) {
      assert TaskIds(tasks)[i] != TaskIds(tasks)[k];
    }
    FilterRejectsOne(tasks, k, TaskIdIsNot(id));
  }

  /** Deleting keeps the order of the remaining tasks: it works piecewise. */
  lemma DeleteTaskKeepsOrder(a: seq<Task>, b: seq<Task>, id: string)
    ensures DeleteTask(a + b, id) == DeleteTask(a, id) + DeleteTask(b, id)
  {
    FilterConcat(a, b, TaskIdIsNot(id));
  }

  /** Deleting keeps task ids unique. */
  lemma DeleteTaskKeepsIdsDistinct(tasks: seq<Task>, id: string)
    requires Distinct(TaskIds(tasks))
    ensures Distinct(TaskIds(DeleteTask(tasks, id)))
  {
    if id in TaskIds(tasks) {
      DeleteTaskAt(tasks, id);
      var k := IndexOf(TaskIds(tasks), id);
      var r := RemoveAt(tasks, k);
      forall i, j | 0 <= i < j < |r| ensures r[i].id != r[j].id {
        var i', j' := if i < k then i else i + 1, if j < k then j else j + 1;
        assert TaskIds(tasks)[i'] != TaskIds(tasks)[j'];
      }
    } else {
      DeleteTaskAbsent(tasks, id);
    }
  }

  /** `updateTask(id, content)`: every task with that id gets the new content;
      ids, column ids and order stay. */
  function UpdateTask(tasks: seq<Task>, id: string, content: string): (r: seq<Task>)
    ensures |r| == |tasks| && TaskIds(r) == TaskIds(tasks)
    ensures forall i :: 0 <= i < |r| ==> r[i].columnId == tasks[i].columnId
    ensures forall i :: 0 <= i < |r| && tasks[i].id == id ==> r[i].content == content
    ensures forall i :: 0 <= i < |r| && tasks[i].id != id ==> r[i] == tasks[i]
  {
    seq(|tasks|, i requires 0 <= i < |tasks| =>
      if tasks[i].id == id then tasks[i].(content := content) else tasks[i])
  }

  /** Updating an id no task has changes nothing. */
  lemma UpdateTaskAbsent(tasks: seq<Task>, id: string, content: string)
    requires id !in TaskIds(tasks)
    ensures UpdateTask(tasks, id, content) == tasks
  {
    var r := UpdateTask(tasks, id, content);
    forall i | 0 <= i < |tasks| ensures r[i] == tasks[i] {
      assert TaskIds(tasks)[i] == tasks[i].id;
    }
  }

  /** Two updates of the same task: the second one wins. */
  lemma UpdateTaskTwice(tasks: seq<Task>, id: string, first: string, second: string)
    ensures UpdateTask(UpdateTask(tasks, id, first), id, second) == UpdateTask(tasks, id, second)
  {
    var r1 := UpdateTask(tasks, id, first);
    forall i | 0 <= i < |tasks| ensures r1[i].id == tasks[i].id {
      assert TaskIds(r1)[i] == TaskIds(tasks)[i];
    }
  }

  // -------------------------------------------------------------- columns

  /** `createColumn()` with the id `nanoid()` would draw. */
  function CreateColumn(columns: seq<Column>, id: string): (r: seq<Column>)
    ensures |r| == |columns| + 1 && r[..|columns|] == columns
    ensures r[|columns|].id == id
    ensures |r[|columns|].title| > 7 && r[|columns|].title[..7] == "Column "
    ensures r[|columns|].title[7] != '0'
    ensures forall i :: 7 <= i < |r[|columns|].title| ==> IsDigit(r[|columns|].title[i])
    ensures DecimalValue(r[|columns|].title[7..]) == |columns| + 1
  {
    var title := DefaultColumnTitle(|columns| + 1);
    assert title[7..] == DecimalString(|columns| + 1);
    DecimalRoundTrip(|columns| + 1);
    columns + [Column(id, title)]
  }

  /** With a fresh id, creating a column keeps column ids unique. */
  lemma CreateColumnKeepsIdsDistinct(columns: seq<Column>, id: string)
    requires Distinct(ColumnIds(columns)) && id !in ColumnIds(columns)
    ensures Distinct(ColumnIds(CreateColumn(columns, id)))
  {
    var r := CreateColumn(columns, id);
    forall i, j | 0 <= i < j < |r| ensures r[i].id != r[j].id {
      if j == |columns| {
        assert ColumnIds(columns)[i] == r[i].id;
      } else {
        assert ColumnIds(columns)[i] != ColumnIds(columns)[j];
      }
    }
  }

  /** The predicate `col => col.id !== id` of `deleteColumn`. */
  function ColumnIdIsNot(id: string): Column -> bool {
    (c: Column) => c.id != id
  }

  /** `deleteColumn(id)`: the columns whose id differs, in their order. Tasks
      are not touched: the board keeps tasks whose column is gone. */
  function DeleteColumn(columns: seq<Column>, id: string): (r: seq<Column>)
    ensures |r| <= |columns|
    ensures forall i :: 0 <= i < |r| ==> r[i] in columns && r[i].id != id
    ensures forall i :: 0 <= i < |columns| && columns[i].id != id ==> columns[i] in r
    ensures id !in ColumnIds(r)
  {
    Filter(columns, ColumnIdIsNot(id))
  }

  /** Deleting an id no column has changes nothing. */
  lemma DeleteColumnAbsent(columns: seq<Column>, id: string)
    requires id !in ColumnIds(columns)
    ensures DeleteColumn(columns, id) == columns
  {
    forall i | 0 <= i < |columns| ensures ColumnIdIsNot(id)(columns[i]) {
      assert ColumnIds(columns)[i] == columns[i].id;
    }
    FilterKeepsAll(columns, ColumnIdIsNot(id));
  }

  /** Calling `deleteColumn` twice equals calling it once. */
  lemma DeleteColumnIdempotent(columns: seq<Column>, id: string)
    ensures DeleteColumn(DeleteColumn(columns, id), id) == DeleteColumn(columns, id)
  {
    FilterIdempotent(columns, ColumnIdIsNot(id));
  }

  /** With unique ids, deleting removes exactly the column at the id's position. */
  lemma DeleteColumnAt(columns: seq<Column>, id: string)
    requires Distinct(ColumnIds(columns)) && id in ColumnIds(columns)
    ensures DeleteColumn(columns, id) == RemoveAt(columns, IndexOf(ColumnIds(columns), id))
  {
    var k := IndexOf(ColumnIds(columns), id);
    forall i | 0 <= i < |columns| && i != k ensures ColumnIdIsNot(id)(columns[i]) {
      assert ColumnIds(columns)[i] != ColumnIds(columns)[k];
    }
    FilterRejectsOne(columns, k, ColumnIdIsNot(id));
  }

  /** Deleting keeps the order of the remaining columns: it works piecewise. */
  lemma DeleteColumnKeepsOrder(a: seq<Column>, b: seq<Column>, id: string)
    ensures DeleteColumn(a + b, id) == DeleteColumn(a, id) + DeleteColumn(b, id)
  {
    FilterConcat(a, b, ColumnIdIsNot(id));
  }

  /** Deleting keeps column ids unique. */
  lemma DeleteColumnKeepsIdsDistinct(columns: seq<Column>, id: string)
    requires Distinct(ColumnIds(columns))
    ensures Distinct(ColumnIds(DeleteColumn(columns, id)))
  {
    if id in ColumnIds(columns) {
      DeleteColumnAt(columns, id);
      var k := IndexOf(ColumnIds(columns), id);
      var r := RemoveAt(columns, k);
      forall i, j | 0 <= i < j < |r| ensures r[i].id != r[j].id {
        var i', j' := if i < k then i else i + 1, if j < k then j else j + 1;
        assert ColumnIds(columns)[i'] != ColumnIds(columns)[j'];
      }
    } else {
      DeleteColumnAbsent(columns, id);
    }
  }

  /** `updateColumn(id, title)`: every column with that id gets the new title;
      ids and order stay. */
  function UpdateColumn(columns: seq<Column>, id: string, title: string): (r: seq<Column>)
    ensures |r| == |columns| && ColumnIds(r) == ColumnIds(columns)
    ensures forall i :: 0 <= i < |r| && columns[i].id == id ==> r[i].title == title
    ensures forall i :: 0 <= i < |r| && columns[i].id != id ==> r[i] == columns[i]
  {
    seq(|columns|, i requires 0 <= i < |columns| =>
      if columns[i].id == id then columns[i].(title := title) else columns[i])
  }

  /** Updating an id no column has changes nothing. */
  lemma UpdateColumnAbsent(columns: seq<Column>, id: string, title: string)
    requires id !in ColumnIds(columns)
    ensures UpdateColumn(columns, id, title) == columns
  {
    var r := UpdateColumn(columns, id, title);
    forall i | 0 <= i < |columns| ensures r[i] == columns[i] {
      assert ColumnIds(columns)[i] == columns[i].id;
    }
  }

  // ------------------------------------------------------- per-column view

  /** The predicate `task => task.columnId === columnId` of the column view. */
  function InColumn(columnId: string): Task -> bool {
    (t: Task) => t.columnId == columnId
  }

  /** The tasks a column shows: those naming it, in flat-list order. */
  function TasksOf(tasks: seq<Task>, columnId: string): (r: seq<Task>)
    ensures forall i :: 0 <= i < |r| ==> r[i] in tasks && r[i].columnId == columnId
    ensures forall i :: 0 <= i < |tasks| && tasks[i].columnId == columnId ==> tasks[i] in r
  {
    Filter(tasks, InColumn(columnId))
  }

  /** The view keeps flat-list order: it works piecewise over the task list. */
  lemma TasksOfKeepsOrder(a: seq<Task>, b: seq<Task>, c: string)
    ensures TasksOf(a + b, c) == TasksOf(a, c) + TasksOf(b, c)
  {
    FilterConcat(a, b, InColumn(c));
  }

  /** A new task shows up last in the column it names and nowhere else. */
  lemma CreateTaskView(tasks: seq<Task>, id: string, columnId: string, c: string)
    ensures var r := CreateTask(tasks, id, columnId);
      TasksOf(r, c) == TasksOf(tasks, c) + (if c == columnId then [r[|tasks|]] else [])
  {
    var r := CreateTask(tasks, id, columnId);
    assert r == tasks + [r[|tasks|]];
    FilterConcat(tasks, [r[|tasks|]], InColumn(c));
    assert [r[|tasks|]][1..] == [];
  }
}
