# Kanban board state, modelled in Dafny

This project models the state logic of the `KanbanBoard` component of a small
drag-and-drop kanban board. The board holds an ordered list of columns, a
single flat list of tasks and two "currently dragged" slots, `activeColumn`
and `activeTask`. A task names its column through `columnId`. A column shows
the tasks that name it, in flat-list order. The model covers these handlers:

- the create / delete / rename helpers for tasks and columns (`BoardOps`,
  pure functions on sequences, as the source builds new arrays with spread,
  `filter` and `map`);
- the drag-end and drag-over handlers (`Drag`, pure functions of the old
  list and the event, with the outcome of each path as a datatype); the
  drag-start handler only fills a slot and is the method
  `KanbanBoard.Board.HandleDragStart`;
- the component itself (`KanbanBoard.Board`, a class with the four state
  fields, whose methods are proved to agree with those functions and to keep
  ids unique).

The list primitives are in `Lists`: `filter` as `Filter`, `findIndex` as
`IndexOf`, and `arrayMove` of the sortable library as `ArrayMove`. `ArrayMove`
takes out the element at `from` and inserts it at `to`, with both indices in
range. `Decimal` models JavaScript's number-to-text conversion used in the
default titles `'Task ' + n` and `'Column ' + n`. `Scenarios` holds worked
examples on concrete lists.

The code differs from what a kanban board is often expected to do, and the
model follows the code:
- `deleteColumn` does not delete the column's tasks, so tasks can name a
  column that no longer exists (`Scenarios.DeleteColumnKeepsItsTasks`).
- `createTask` does not check that its column exists.
- Dropping a task on a column's body keeps the task where it is in the flat
  list.
- There is no cancel handler, so hover changes stay when a drag is cancelled.

Files: `types.dfy`, `lists.dfy`, `decimal.dfy`, `board_ops.dfy`, `drag.dfy`,
`kanban_board.dfy`, `scenarios.dfy`.

## Model

| member | source | states |
|---|---|---|
| Lists.Filter | src/components/KanbanBoard.tsx:87 | every element of the result is an input element satisfying the predicate, every such input element occurs in the result, and the result is no longer than the input |
| Lists.FilterConcat | src/components/KanbanBoard.tsx:63 | filtering works piecewise over a concatenation, so the kept elements keep their order |
| Lists.FilterIdempotent | src/components/KanbanBoard.tsx:87 | filtering twice with the same predicate equals filtering once |
| Lists.IndexOf | src/components/KanbanBoard.tsx:121-122 | `findIndex` on the ids: -1 exactly when the id is absent, otherwise the first position holding the id |
| Lists.IndexOfDistinct | src/components/KanbanBoard.tsx:136-137 | when no id repeats, the id at position k is found at k |
| Lists.ArrayMove | src/components/KanbanBoard.tsx:123 | the moved list is a permutation of the old one; the dragged element sits at the target index; removing it gives the old list without it, so the other elements keep their relative order |
| Lists.ArrayMoveAt | src/components/KanbanBoard.tsx:123 | position by position, elements between the two indices shift by one toward the source, and the rest stay put |
| Lists.ArrayMoveSame | src/components/KanbanBoard.tsx:151 | `arrayMove(s, i, i)` is the identity |
| Lists.ArrayMoveInverse | src/components/KanbanBoard.tsx:123 | moving back with the indices swapped restores the original list |
| Lists.ArrayMoveDistinct | src/components/KanbanBoard.tsx:141 | a move keeps a list free of repeats |
| Lists.FilterArrayMoveRejected | src/components/KanbanBoard.tsx:169 | moving an element a filter rejects leaves the filtered view unchanged |
| Decimal.DecimalString | src/components/KanbanBoard.tsx:57 | the text of a number is non-empty, all digits, with no leading zero |
| Decimal.DecimalRoundTrip | src/components/KanbanBoard.tsx:57 | reading the digits back gives the number |
| Decimal.DecimalStringInjective | src/components/KanbanBoard.tsx:81 | different numbers have different texts |
| BoardOps.CreateTask | src/components/KanbanBoard.tsx:53-60 | exactly one task is appended, with the given id and column id; its content is `"Task "` followed by the digits of the old length + 1, with no leading zero; earlier tasks are unchanged and in order |
| BoardOps.CreateTaskKeepsIdsDistinct | src/components/KanbanBoard.tsx:53-60 | with a fresh id, task ids stay unique |
| BoardOps.CreateTaskView | src/components/KanbanBoard.tsx:53-60 | the new task appears last in the view of the column it names, and every other column's view is unchanged (the column need not exist) |
| BoardOps.DeleteTask | src/components/KanbanBoard.tsx:62-65 | the result keeps exactly the tasks whose id differs, and the id no longer occurs |
| BoardOps.DeleteTaskAbsent | src/components/KanbanBoard.tsx:62-65 | deleting an absent id changes nothing |
| BoardOps.DeleteTaskAt | src/components/KanbanBoard.tsx:62-65 | with unique ids, deleting removes exactly the task at the id's position |
| BoardOps.DeleteTaskKeepsOrder | src/components/KanbanBoard.tsx:63 | deletion works piecewise, so the remaining tasks keep their order |
| BoardOps.DeleteTaskKeepsIdsDistinct | src/components/KanbanBoard.tsx:62-65 | deleting keeps task ids unique |
| BoardOps.UpdateTask | src/components/KanbanBoard.tsx:67-75 | length, ids, column ids and order are preserved; matching tasks get the new content and all other tasks are unchanged |
| BoardOps.UpdateTaskAbsent | src/components/KanbanBoard.tsx:67-75 | updating an absent id changes nothing |
| BoardOps.UpdateTaskTwice | src/components/KanbanBoard.tsx:67-75 | two updates of the same id: the second one wins |
| BoardOps.CreateColumn | src/components/KanbanBoard.tsx:78-84 | exactly one column is appended, with the given id; its title is `"Column "` followed by the digits of the old length + 1, with no leading zero; earlier columns are unchanged and in order |
| BoardOps.CreateColumnKeepsIdsDistinct | src/components/KanbanBoard.tsx:78-84 | with a fresh id, column ids stay unique |
| BoardOps.DeleteColumn | src/components/KanbanBoard.tsx:86-89 | the result keeps exactly the columns whose id differs, and the id no longer occurs |
| BoardOps.DeleteColumnAbsent | src/components/KanbanBoard.tsx:86-89 | deleting an absent id changes nothing |
| BoardOps.DeleteColumnIdempotent | src/components/KanbanBoard.tsx:86-89 | calling `deleteColumn` twice equals calling it once |
| BoardOps.DeleteColumnAt | src/components/KanbanBoard.tsx:86-89 | with unique ids, deleting removes exactly the column at the id's position |
| BoardOps.DeleteColumnKeepsOrder | src/components/KanbanBoard.tsx:87 | deletion works piecewise, so the remaining columns keep their order |
| BoardOps.DeleteColumnKeepsIdsDistinct | src/components/KanbanBoard.tsx:86-89 | deleting keeps column ids unique |
| BoardOps.UpdateColumn | src/components/KanbanBoard.tsx:91-100 | length, ids and order are preserved; matching columns get the new title and all other columns are unchanged |
| BoardOps.UpdateColumnAbsent | src/components/KanbanBoard.tsx:91-100 | updating an absent id changes nothing |
| BoardOps.TasksOf | src/components/KanbanBoard.tsx:169 | a column's view holds only tasks naming that column, and every such task occurs in it |
| BoardOps.TasksOfKeepsOrder | src/components/KanbanBoard.tsx:169 | the view works piecewise over the flat list, so a column shows its tasks in flat-list order |
| Drag.DropColumns | src/components/KanbanBoard.tsx:113-125 | with no target or a drop on itself the columns are unchanged; a failed lookup is reported, and the columns are kept; otherwise both ids are found at distinct indices, and the result is a permutation with the dragged column at the target index and the others in their old relative order |
| Drag.DropOnColumn | src/components/KanbanBoard.tsx:121-124 | when both ids name columns, the drop is `arrayMove` from the dragged column's index to the target's index |
| Drag.DropKeepsIdsDistinct | src/components/KanbanBoard.tsx:121-124 | a drop keeps column ids unique |
| Drag.DropUndo | src/components/KanbanBoard.tsx:121-124 | when both ids name different columns (ids unique), the drop is a move, and dragging the same column back onto the column now at its old index restores the original order |
| Drag.MoveOverTask | src/components/KanbanBoard.tsx:136-142 | the dragged task takes the hovered task's column id and sits at the hovered index; every other task is unchanged and keeps its relative order; the ids are moved by `arrayMove` |
| Drag.MoveOntoColumn | src/components/KanbanBoard.tsx:147-152 | only the dragged task's column id changes, and the order is identical |
| Drag.HoverTasks | src/components/KanbanBoard.tsx:127-154 | the list is unchanged with no target, the same id, a non-task drag, an untyped target, or a task id that is not found; otherwise the list is the task-over-task or task-over-column move, from the looked-up indices |
| Drag.HoverOnColumn | src/components/KanbanBoard.tsx:146-153 | a task hovering over a column's body is reparented in place at its found index |
| Drag.HoverKeepsIdMultiset | src/components/KanbanBoard.tsx:127-154 | every hover keeps the multiset of task ids |
| Drag.HoverKeepsIdsDistinct | src/components/KanbanBoard.tsx:127-154 | every hover keeps task ids unique |
| Drag.HoverKeepsOtherColumns | src/components/KanbanBoard.tsx:134-153 | a column that is neither the dragged task's old nor its new column shows the same tasks in the same order |
| KanbanBoard.Board.constructor | src/components/KanbanBoard.tsx:21-42 | the board starts with the three default columns, no tasks and empty drag slots |
| KanbanBoard.Board.CreateTask | src/components/KanbanBoard.tsx:53-60 | stores `BoardOps.CreateTask` of the old tasks and keeps ids unique, given a fresh id |
| KanbanBoard.Board.DeleteTask | src/components/KanbanBoard.tsx:62-65 | stores `BoardOps.DeleteTask` of the old tasks |
| KanbanBoard.Board.UpdateTask | src/components/KanbanBoard.tsx:67-75 | stores `BoardOps.UpdateTask` of the old tasks |
| KanbanBoard.Board.CreateColumn | src/components/KanbanBoard.tsx:78-84 | stores `BoardOps.CreateColumn` of the old columns and keeps ids unique, given a fresh id |
| KanbanBoard.Board.DeleteColumn | src/components/KanbanBoard.tsx:86-89 | stores `BoardOps.DeleteColumn` of the old columns; the task list is not touched |
| KanbanBoard.Board.UpdateColumn | src/components/KanbanBoard.tsx:91-100 | stores `BoardOps.UpdateColumn` of the old columns |
| KanbanBoard.Board.HandleDragStart | src/components/KanbanBoard.tsx:102-111 | a `Column` payload fills `activeColumn` and a `Task` payload fills `activeTask`; the other slot and any other payload leave state as it was |
| KanbanBoard.Board.HandleDragEnd | src/components/KanbanBoard.tsx:113-125 | both slots are empty afterwards in every case, and the columns and outcome are those of `Drag.DropColumns` |
| KanbanBoard.Board.HandleDragOver | src/components/KanbanBoard.tsx:127-154 | writes the column id in place, then moves the task; the tasks and outcome are those of `Drag.HoverTasks`, and ids stay unique |
| Scenarios.ColumnDropScenario | src/components/KanbanBoard.tsx:121-124 | dragging column C onto column A in [A, B, C] gives [C, A, B] |
| Scenarios.CreateTwoTasksScenario | src/components/KanbanBoard.tsx:53-60 | two tasks created in one column are "Task 1" and "Task 2" |
| Scenarios.TaskDropOnColumnScenario | src/components/KanbanBoard.tsx:146-153 | dragging the second task onto another column's body moves it there with the order kept, and the first column then shows only "Task 1" |
| Scenarios.ColumnTitlesCanRepeat | src/components/KanbanBoard.tsx:78-89 | create, delete, create can give two columns the same title "Column 4", because titles follow the list length |

## Left out

- Drag.DropColumns: when either id names no column (every drop of a task), `findIndex` returns -1 and `arrayMove` gets a negative index. The library's behaviour for that is not part of this model. The model reports `ColumnNotFound` and keeps the columns as they were.
- KanbanBoard.Board.HandleDragEnd: the same -1 case, for the same reason, keeps the columns.
- Drag.HoverTasks: a task id that is not found makes `tasks[-1].columnId` throw in JavaScript before anything is stored. The model records this as outcome `TaskNotFound` with the list unchanged. It does not model the exception itself.
- KanbanBoard.Board.HandleDragOver: the source writes `columnId` into the task object shared with the previous state and with the drag payload (and so with `activeTask`). The model treats tasks as values, so `activeTask` keeps the old column id. This aliasing is not modelled.
- Rendering, styling, the drag overlay, the portal and the add-column button are presentation only. src/components/ColumnContent.tsx and src/components/TaskCard.tsx are not part of this model.
- The pointer sensor and its 10-pixel activation distance are not modelled. The library does that gesture detection.
- `nanoid` is a method parameter, with a precondition that the id is unused.
- The memoised id list `columnsId` is not modelled. It is a cached `map` of the column ids.
- React's batching of state updates is not modelled. Nor are the handlers reading `tasks`/`columns` from the render closure. Each handler is one atomic transition.
- Ids are strings. The library also allows numeric ids, and `over.id.toString()` is taken to be the id itself.
- Decimal.DecimalString: JavaScript writes numbers of 10^21 and above in exponent notation. The model writes plain digits.
- Cascade deletion of tasks, rollback of hover changes on cancel, and per-column ordered task lists are not in the code. They are not modelled.
