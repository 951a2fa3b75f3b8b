/** What the drag handlers of the board do to its lists
    (src/components/KanbanBoard.tsx, lines 102-154), as functions of the old
    list and the drag event. The board's handler methods are proved to agree
    with them. */
module Drag {
  import opened Types
  import opened Lists
  import opened BoardOps

  /** `data.current` of a draggable or droppable: a column, a task, or no
      (or an unknown) `type` tag. */
  datatype Payload = ColumnData(column: Column) | TaskData(task: Task) | Untyped

  /** The item being dragged. */
  datatype Active = Active(id: string, data: Payload)

  /** The item under the pointer. */
  datatype Over = Over(id: string, data: Payload)

  /** A drag-over or drag-end event: `over` is absent when nothing is under the pointer. */
  datatype DragEvent = DragEvent(active: Active, over: Option<Over>)

  // ------------------------------------------------------------- drag end

  /** Which path `handleDragEnd` took. `ColumnNotFound` is a drop where one of the
      two ids names no column, so that `findIndex` returned -1. */
  datatype DropOutcome = NoDropTarget | DroppedOnSelf | ColumnNotFound | ColumnMoved(from: nat, to: nat)

  datatype Drop = Drop(columns: seq<Column>, outcome: DropOutcome)

  /** The column list after `handleDragEnd`. On `ColumnNotFound` the list is kept:
      what `arrayMove` does with index -1 is not part of this model. */
  function DropColumns(columns: seq<Column>, ev: DragEvent): (r: Drop)
    ensures r.outcome == NoDropTarget <==> ev.over.None?
    ensures r.outcome == DroppedOnSelf <==> ev.over.Some? && ev.active.id == ev.over.value.id
    ensures r.outcome == ColumnNotFound <==>
      ev.over.Some? && ev.active.id != ev.over.value.id &&
      (ev.active.id !in ColumnIds(columns) || ev.over.value.id !in ColumnIds(columns))
    ensures |r.columns| == |columns| && multiset(r.columns) == multiset(columns)
    ensures !r.outcome.ColumnMoved? ==> r.columns == columns
    ensures r.outcome.ColumnMoved? ==>
      var from, to := r.outcome.from, r.outcome.to;
      from < |columns| && to < |columns| && from != to &&
      columns[from].id == ev.active.id && columns[to].id == ev.over.value.id &&
      r.columns[to] == columns[from] && RemoveAt(r.columns, to) == RemoveAt(columns, from)
  {
    match ev.over
    case None => Drop(columns, NoDropTarget)
    case Some(over) =>
      if ev.active.id == over.id then Drop(columns, DroppedOnSelf)
      else
        var from := IndexOf(ColumnIds(columns), ev.active.id);
        var to := IndexOf(ColumnIds(columns), over.id);
        if from < 0 || to < 0 then Drop(columns, ColumnNotFound)
        else Drop(ArrayMove(columns, from, to), ColumnMoved(from, to))
  }

  /** A column dropped on another column is moved with `arrayMove` from its
      index to the target's index. */
  lemma DropOnColumn(columns: seq<Column>, ev: DragEvent)
    requires ev.over.Some? && ev.active.id != ev.over.value.id
    requires ev.active.id in ColumnIds(columns) && ev.over.value.id in ColumnIds(columns)
    ensures var from, to := IndexOf(ColumnIds(columns), ev.active.id), IndexOf(ColumnIds(columns), ev.over.value.id);
      DropColumns(columns, ev) == Drop(ArrayMove(columns, from, to), ColumnMoved(from, to))
  {
  }

  /** Moving columns moves their ids the same way. */
  lemma ColumnIdsArrayMove(columns: seq<Column>, from: nat, to: nat)
    requires from < |columns| && to < |columns|
    ensures ColumnIds(ArrayMove(columns, from, to)) == ArrayMove(ColumnIds(columns), from, to)
  {
    var a, b := ColumnIds(ArrayMove(columns, from, to)), ArrayMove(ColumnIds(columns), from, to);
    forall k | 0 <= k < |columns| ensures a[k] == b[k] {
      ArrayMoveAt(columns, from, to, k);
      ArrayMoveAt(ColumnIds(columns), from, to, k);
    }
  }

  /** A drop keeps column ids unique. */
  lemma DropKeepsIdsDistinct(columns: seq<Column>, ev: DragEvent)
    requires Distinct(ColumnIds(columns))
    ensures Distinct(ColumnIds(DropColumns(columns, ev).columns))
  {
    var r := DropColumns(columns, ev);
    if r.outcome.ColumnMoved? {
      ColumnIdsArrayMove(columns, r.outcome.from, r.outcome.to);
      ArrayMoveDistinct(ColumnIds(columns), r.outcome.from, r.outcome.to);
    }
  }

  /** The inverse law on the board: after a column was moved from `from` to `to`,
      dragging it back onto the column that now sits at `from` restores the
      original order. */
  lemma DropUndo(columns: seq<Column>, ev: DragEvent)
    requires Distinct(ColumnIds(columns))
    requires ev.over.Some? && ev.active.id != ev.over.value.id
    requires ev.active.id in ColumnIds(columns) && ev.over.value.id in ColumnIds(columns)
    ensures var r := DropColumns(columns, ev);
      r.outcome.ColumnMoved? &&
      var back := DragEvent(ev.active, Some(Over(r.columns[r.outcome.from].id, ColumnData(r.columns[r.outcome.from]))));
      DropColumns(r.columns, back) == Drop(columns, ColumnMoved(r.outcome.to, r.outcome.from))
  {
    var r := DropColumns(columns, ev);
    var from, to := r.outcome.from, r.outcome.to;
    var moved := r.columns;
    IndexOfDistinct(ColumnIds(columns), from);
    IndexOfDistinct(ColumnIds(columns), to);
    assert moved == ArrayMove(columns, from, to);
    DropKeepsIdsDistinct(columns, ev);
    IndexOfDistinct(ColumnIds(moved), to);
    IndexOfDistinct(ColumnIds(moved), from);
    assert ColumnIds(moved)[to] != ColumnIds(moved)[from];
    ArrayMoveInverse(columns, from, to);
  }

  // ------------------------------------------------------------ drag over

  /** Which path `handleDragOver` took. `TaskNotFound` is a hover where a task id
      naming no task makes `tasks[-1].columnId` throw before anything is stored. */
  datatype HoverOutcome =
    | NoHoverTarget | HoverOnSelf | NotDraggingTask | HoverUntyped | TaskNotFound
    | MovedOverTask(from: nat, to: nat) | MovedOntoColumn(at: nat)

  datatype Hover = Hover(tasks: seq<Task>, outcome: HoverOutcome)

  /** Whether the hover moved a task. */
  predicate Moved(o: HoverOutcome) {
    o.MovedOverTask? || o.MovedOntoColumn?
  }

  /** Task over task: the dragged task at `from` takes the column of the task at
      `to` (the write `tasks[activeTaskIdx].columnId = ...`) and is moved to `to`. */
  function MoveOverTask(tasks: seq<Task>, from: nat, to: nat): (r: seq<Task>)
    requires from < |tasks| && to < |tasks|
    ensures |r| == |tasks|
    ensures r[to] == tasks[from].(columnId := tasks[to].columnId)
    ensures RemoveAt(r, to) == RemoveAt(tasks, from)
    ensures TaskIds(r) == ArrayMove(TaskIds(tasks), from, to)
  {
    var reparented := tasks[from := tasks[from].(columnId := tasks[to].columnId)];
    assert TaskIds(reparented) == TaskIds(tasks);
    assert RemoveAt(reparented, from) == RemoveAt(tasks, from);
    TaskIdsArrayMove(reparented, from, to);
    ArrayMove(reparented, from, to)
  }

  /** Task over column: the dragged task at `at` takes the column's id and, since
      the move is `arrayMove(tasks, at, at)`, keeps its place. */
  function MoveOntoColumn(tasks: seq<Task>, at: nat, columnId: string): (r: seq<Task>)
    requires at < |tasks|
    ensures r == tasks[at := tasks[at].(columnId := columnId)]
    ensures TaskIds(r) == TaskIds(tasks)
  {
    var reparented := tasks[at := tasks[at].(columnId := columnId)];
    assert TaskIds(reparented) == TaskIds(tasks);
    ArrayMoveSame(reparented, at);
    ArrayMove(reparented, at, at)
  }

  /** The task list after `handleDragOver`. */
  function HoverTasks(tasks: seq<Task>, ev: DragEvent): (r: Hover)
    ensures r.outcome == NoHoverTarget <==> ev.over.None?
    ensures r.outcome == HoverOnSelf <==> ev.over.Some? && ev.active.id == ev.over.value.id
    ensures r.outcome == NotDraggingTask <==>
      ev.over.Some? && ev.active.id != ev.over.value.id && !ev.active.data.TaskData?
    ensures r.outcome == HoverUntyped <==>
      ev.over.Some? && ev.active.id != ev.over.value.id && ev.active.data.TaskData? &&
      ev.over.value.data.Untyped?
    ensures r.outcome == TaskNotFound <==>
      ev.over.Some? && ev.active.id != ev.over.value.id && ev.active.data.TaskData? &&
      !ev.over.value.data.Untyped? &&
      (ev.active.id !in TaskIds(tasks) ||
       (ev.over.value.data.TaskData? && ev.over.value.id !in TaskIds(tasks)))
    ensures !Moved(r.outcome) ==> r.tasks == tasks
    ensures r.outcome.MovedOverTask? ==>
      var from, to := r.outcome.from, r.outcome.to;
      from < |tasks| && to < |tasks| && from != to && ev.over.value.data.TaskData? &&
      tasks[from].id == ev.active.id && tasks[to].id == ev.over.value.id &&
      r.tasks == MoveOverTask(tasks, from, to)
    ensures r.outcome.MovedOntoColumn? ==>
      var at := r.outcome.at;
      at < |tasks| && ev.over.value.data.ColumnData? && tasks[at].id == ev.active.id &&
      r.tasks == MoveOntoColumn(tasks, at, ev.over.value.id)
  {
    match ev.over
    case None => Hover(tasks, NoHoverTarget)
    case Some(over) =>
      if ev.active.id == over.id then Hover(tasks, HoverOnSelf)
      else if !ev.active.data.TaskData? then Hover(tasks, NotDraggingTask)
      else
        var from := IndexOf(TaskIds(tasks), ev.active.id);
        match over.data
        case TaskData(_) =>
          var to := IndexOf(TaskIds(tasks), over.id);
          if from < 0 || to < 0 then Hover(tasks, TaskNotFound)
          else Hover(MoveOverTask(tasks, from, to), MovedOverTask(from, to))
        case ColumnData(_) =>
          if from < 0 then Hover(tasks, TaskNotFound)
          else Hover(MoveOntoColumn(tasks, from, over.id), MovedOntoColumn(from))
        case Untyped => Hover(tasks, HoverUntyped)
  }

  /** A dragged task hovering over a column's body is reparented in place. */
  lemma HoverOnColumn(tasks: seq<Task>, ev: DragEvent)
    requires ev.over.Some? && ev.active.id != ev.over.value.id
    requires ev.active.data.TaskData? && ev.over.value.data.ColumnData?
    requires ev.active.id in TaskIds(tasks)
    ensures var at := IndexOf(TaskIds(tasks), ev.active.id);
      HoverTasks(tasks, ev) == Hover(MoveOntoColumn(tasks, at, ev.over.value.id), MovedOntoColumn(at))
  {
  }

  /** Every hover keeps the multiset of task ids. */
  lemma HoverKeepsIdMultiset(tasks: seq<Task>, ev: DragEvent)
    ensures multiset(TaskIds(HoverTasks(tasks, ev).tasks)) == multiset(TaskIds(tasks))
  {
    var r := HoverTasks(tasks, ev);
    if r.outcome.MovedOverTask? {
      assert TaskIds(r.tasks) == ArrayMove(TaskIds(tasks), r.outcome.from, r.outcome.to);
    }
  }

  /** Moving tasks moves their ids the same way. */
  lemma TaskIdsArrayMove(tasks: seq<Task>, from: nat, to: nat)
    requires from < |tasks| && to < |tasks|
    ensures TaskIds(ArrayMove(tasks, from, to)) == ArrayMove(TaskIds(tasks), from, to)
  {
    var a, b := TaskIds(ArrayMove(tasks, from, to)), ArrayMove(TaskIds(tasks), from, to);
    forall k | 0 <= k < |tasks| ensures a[k] == b[k] {
      ArrayMoveAt(tasks, from, to, k);
      ArrayMoveAt(TaskIds(tasks), from, to, k);
    }
  }

  /** A hover keeps task ids unique. */
  lemma HoverKeepsIdsDistinct(tasks: seq<Task>, ev: DragEvent)
    requires Distinct(TaskIds(tasks))
    ensures Distinct(TaskIds(HoverTasks(tasks, ev).tasks))
  {
    var r := HoverTasks(tasks, ev);
    if r.outcome.MovedOverTask? {
      ArrayMoveDistinct(TaskIds(tasks), r.outcome.from, r.outcome.to);
    } else if r.outcome.MovedOntoColumn? {
      assert TaskIds(r.tasks) == TaskIds(tasks);
    }
  }

  /** A column that is neither the dragged task's old column nor its new one
      shows the same tasks in the same order after the hover. */
  lemma HoverKeepsOtherColumns(tasks: seq<Task>, ev: DragEvent, c: string)
    requires var r := HoverTasks(tasks, ev);
      (r.outcome.MovedOverTask? ==>
        c != tasks[r.outcome.from].columnId && c != tasks[r.outcome.to].columnId) &&
      (r.outcome.MovedOntoColumn? ==>
        c != tasks[r.outcome.at].columnId && c != ev.over.value.id)
    ensures TasksOf(HoverTasks(tasks, ev).tasks, c) == TasksOf(tasks, c)
  {
    var r := HoverTasks(tasks, ev);
    match r.outcome
    case MovedOverTask(from, to) =>
      var x := tasks[from].(columnId := tasks[to].columnId);
      var reparented := tasks[from := x];
      assert r.tasks == MoveOverTask(tasks, from, to) == ArrayMove(reparented, from, to);
      FilterArrayMoveRejected(reparented, from, to, InColumn(c));
      FilterReplaceRejected(tasks, from, x, InColumn(c));
    case MovedOntoColumn(at) =>
      assert r.tasks == MoveOntoColumn(tasks, at, ev.over.value.id);
      FilterReplaceRejected(tasks, at, tasks[at].(columnId := ev.over.value.id), InColumn(c));
    case _ =>
  }
}
