/** The `KanbanBoard` component's state (src/components/KanbanBoard.tsx,
    lines 21-154): the column list, the flat task list and the two "currently
    dragged" slots, with one method per handler. Each handler is one atomic
    state transition. */
module KanbanBoard {
  import opened Types
  import opened Lists
  import opened BoardOps
  import opened Drag

  /** The columns a new board starts with. */
  const DefaultColumns: seq<Column> :=
    [Column("todo", "Todo"), Column("doing", "Work in progress"), Column("done", "Done")]

  class Board {
    var columns: seq<Column>
    var tasks: seq<Task>
    var activeColumn: Option<Column>
    var activeTask: Option<Task>

    /** Column ids are unique, and so are task ids. */
    ghost predicate Valid()
      reads this
    {
      Distinct(ColumnIds(columns)) && Distinct(TaskIds(tasks))
    }

    constructor ()
      ensures Valid()
      ensures columns == DefaultColumns && tasks == []
      ensures activeColumn == None && activeTask == None
    {
      columns := DefaultColumns;
      tasks := [];
      activeColumn := None;
      activeTask := None;
    }

    /** `createTask(columnId)`; `freshId` is the id `nanoid()` would return. */
    method CreateTask(columnId: string, freshId: string)
      requires Valid() && freshId !in TaskIds(tasks)
      modifies this`tasks
      ensures Valid()
      ensures tasks == BoardOps.CreateTask(old(tasks), freshId, columnId)
    {
      CreateTaskKeepsIdsDistinct(tasks, freshId, columnId);
      tasks := BoardOps.CreateTask(tasks, freshId, columnId);
    }

    /** `deleteTask(taskId)`. */
    method DeleteTask(taskId: string)
      requires Valid()
      modifies this`tasks
      ensures Valid()
      ensures tasks == BoardOps.DeleteTask(old(tasks), taskId)
    {
      DeleteTaskKeepsIdsDistinct(tasks, taskId);
      tasks := BoardOps.DeleteTask(tasks, taskId);
    }

    /** `updateTask(taskId, content)`. */
    method UpdateTask(taskId: string, content: string)
      requires Valid()
      modifies this`tasks
      ensures Valid()
      ensures tasks == BoardOps.UpdateTask(old(tasks), taskId, content)
    {
      tasks := BoardOps.UpdateTask(tasks, taskId, content);
    }

    /** `createColumn()`; `freshId` is the id `nanoid()` would return. */
    method CreateColumn(freshId: string)
      requires Valid() && freshId !in ColumnIds(columns)
      modifies this`columns
      ensures Valid()
      ensures columns == BoardOps.CreateColumn(old(columns), freshId)
    {
      CreateColumnKeepsIdsDistinct(columns, freshId);
      columns := BoardOps.CreateColumn(columns, freshId);
    }

    /** `deleteColumn(id)`: the tasks are left as they are, including those
        whose column is now gone. */
    method DeleteColumn(id: string)
      requires Valid()
      modifies this`columns
      ensures Valid()
      ensures columns == BoardOps.DeleteColumn(old(columns), id)
    {
      DeleteColumnKeepsIdsDistinct(columns, id);
      columns := BoardOps.DeleteColumn(columns, id);
    }

    /** `updateColumn(id, title)`. */
    method UpdateColumn(id: string, title: string)
      requires Valid()
      modifies this`columns
      ensures Valid()
      ensures columns == BoardOps.UpdateColumn(old(columns), id, title)
    {
      columns := BoardOps.UpdateColumn(columns, id, title);
    }

    /** `handleDragStart`: remembers the lifted column or task; any other
        payload changes nothing, and the other slot is not cleared. */
    method HandleDragStart(active: Active)
      modifies this`activeColumn, this`activeTask
      ensures activeColumn == if active.data.ColumnData? then Some(active.data.column) else old(activeColumn)
      ensures activeTask == if active.data.TaskData? then Some(active.data.task) else old(activeTask)
    {
      if active.data.ColumnData? {
        activeColumn := Some(active.data.column);
        return;
      }
      if active.data.TaskData? {
        activeTask := Some(active.data.task);
        return;
      }
    }

    /** `handleDragEnd`: clears both slots, then reorders the columns when a
        column was dropped on another one. */
    method HandleDragEnd(ev: DragEvent) returns (outcome: DropOutcome)
      requires Valid()
      modifies this`columns, this`activeColumn, this`activeTask
      ensures Valid()
      ensures activeColumn == None && activeTask == None
      ensures DropColumns(old(columns), ev) == Drop(columns, outcome)
    {
      DropKeepsIdsDistinct(columns, ev);
      activeColumn := None;
      activeTask := None;
      if ev.over.None? {
        return NoDropTarget;
      }
      var over := ev.over.value;
      if ev.active.id == over.id {
        return DroppedOnSelf;
      }
      var activeColumnIdx := IndexOf(ColumnIds(columns), ev.active.id);
      var overColumnIdx := IndexOf(ColumnIds(columns), over.id);
      if activeColumnIdx < 0 || overColumnIdx < 0 {
        return ColumnNotFound;
      }
      columns := ArrayMove(columns, activeColumnIdx, overColumnIdx);
      outcome := ColumnMoved(activeColumnIdx, overColumnIdx);
    }

    /** `handleDragOver`: while a task is dragged, writes its new column id in
        place and then repositions it in the flat list. */
    method HandleDragOver(ev: DragEvent) returns (outcome: HoverOutcome)
      requires Valid()
      modifies this`tasks
      ensures Valid()
      ensures HoverTasks(old(tasks), ev) == Hover(tasks, outcome)
    {
      HoverKeepsIdsDistinct(tasks, ev);
      if ev.over.None? {
        return NoHoverTarget;
      }
      var over := ev.over.value;
      if ev.active.id == over.id {
        return HoverOnSelf;
      }
      if !ev.active.data.TaskData? {
        return NotDraggingTask;
      }
      if over.data.TaskData? {
        var activeTaskIdx := IndexOf(TaskIds(tasks), ev.active.id);
        var overTaskIdx := IndexOf(TaskIds(tasks), over.id);
        if activeTaskIdx < 0 || overTaskIdx < 0 {
          return TaskNotFound;
        }
        ghost var before := tasks;
        tasks := tasks[activeTaskIdx := tasks[activeTaskIdx].(columnId := tasks[overTaskIdx].columnId)];
        tasks := ArrayMove(tasks, activeTaskIdx, overTaskIdx);
        assert tasks == MoveOverTask(before, activeTaskIdx, overTaskIdx);
        return MovedOverTask(activeTaskIdx, overTaskIdx);
      }
      if over.data.ColumnData? {
        var activeTaskIdx := IndexOf(TaskIds(tasks), ev.active.id);
        if activeTaskIdx < 0 {
          return TaskNotFound;
        }
        ghost var before := tasks;
        tasks := tasks[activeTaskIdx := tasks[activeTaskIdx].(columnId := over.id)];
        tasks := ArrayMove(tasks, activeTaskIdx, activeTaskIdx);
        assert tasks == MoveOntoColumn(before, activeTaskIdx, over.id);
        return MovedOntoColumn(activeTaskIdx);
      }
      return HoverUntyped;
    }
  }
}
