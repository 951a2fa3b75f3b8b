/** Worked examples of the board's behaviour on concrete lists. */
module Scenarios {
  import opened Types
  import opened Lists
  import opened Decimal
  import opened BoardOps
  import opened Drag
  import opened KanbanBoard

  const A := Column("a", "A")
  const B := Column("b", "B")
  const C := Column("c", "C")

  lemma ColumnPositions()
    ensures IndexOf(ColumnIds([A, B, C]), "c") == 2 && IndexOf(ColumnIds([A, B, C]), "a") == 0
  {
    var ids := ColumnIds([A, B, C]);
    assert ids == ["a", "b", "c"];
    assert ids[1..] == ["b", "c"] && ids[1..][1..] == ["c"];
  }

  lemma MoveThirdToFront()
    ensures ArrayMove([A, B, C], 2, 0) == [C, A, B]
  {
    assert RemoveAt([A, B, C], 2) == [A, B];
    assert InsertAt([A, B], 0, C) == [C, A, B];
  }

  /** Dragging the third column onto the first one gives [C, A, B]. */
  lemma ColumnDropScenario()
    ensures DropColumns([A, B, C], DragEvent(Active("c", ColumnData(C)), Some(Over("a", ColumnData(A)))))
      == Drop([C, A, B], ColumnMoved(2, 0))
  {
    ColumnPositions();
    MoveThirdToFront();
    DropOnColumn([A, B, C], DragEvent(Active("c", ColumnData(C)), Some(Over("a", ColumnData(A)))));
  }

  /** Two tasks created in column "a" are "Task 1" and "Task 2". */
  lemma CreateTwoTasksScenario()
    ensures CreateTask(CreateTask([], "t1", "a"), "t2", "a") == [T1, T2]
  {
    assert DefaultTaskContent(1) == "Task 1" by {
      assert DecimalString(1) == "1";
    }
    assert DefaultTaskContent(2) == "Task 2" by {
      assert DecimalString(2) == "2";
    }
  }

  const T1 := Task("t1", "a", "Task 1")
  const T2 := Task("t2", "a", "Task 2")
  const T2InC := Task("t2", "c", "Task 2")

  lemma SecondTaskPosition()
    ensures IndexOf(TaskIds([T1, T2]), "t2") == 1
  {
    assert TaskIds([T1, T2]) == ["t1", "t2"];
    assert TaskIds([T1, T2])[1..] == ["t2"];
  }

  lemma ColumnAViewAfterMove()
    ensures TasksOf([T1, T2InC], "a") == [T1]
  {
    FilterConcat([T1], [T2InC], InColumn("a"));
    assert [T1] + [T2InC] == [T1, T2InC];
    assert [T2InC][1..] == [] && [T1][1..] == [];
  }

  /** Dragging the second of those tasks onto the body of column "c" moves it
      there, keeps the order, and leaves "a" showing only the first. */
  lemma TaskDropOnColumnScenario()
    ensures var r := HoverTasks([T1, T2], DragEvent(Active("t2", TaskData(T2)), Some(Over("c", ColumnData(C)))));
      r == Hover([T1, T2InC], MovedOntoColumn(1)) && TasksOf(r.tasks, "a") == [T1]
  {
    SecondTaskPosition();
    HoverOnColumn([T1, T2], DragEvent(Active("t2", TaskData(T2)), Some(Over("c", ColumnData(C)))));
    assert MoveOntoColumn([T1, T2], 1, "c") == [T1, T2InC];
    ColumnAViewAfterMove();
  }

  /** Default titles follow the list length, so a delete followed by a create
      can give two columns the same title. */
  lemma ColumnTitlesCanRepeat()
    ensures var once := CreateColumn(DefaultColumns, "x");
      var twice := CreateColumn(DeleteColumn(once, "todo"), "y");
      |twice| == 4 && twice[2].id == "x" && twice[3].id == "y" &&
      twice[2].title == twice[3].title == "Column 4"
  {
    var once := CreateColumn(DefaultColumns, "x");
    assert ColumnIds(once) == ["todo", "doing", "done", "x"];
    DeleteColumnAt(once, "todo");
    assert IndexOf(ColumnIds(once), "todo") == 0;
    var kept := DeleteColumn(once, "todo");
    assert kept == once[1..];
    assert DecimalString(4) == "4";
    assert DefaultColumnTitle(4) == "Column 4";
  }

  /** Deleting a column leaves its tasks on the board, still naming it. */
  method DeleteColumnKeepsItsTasks()
  {
    var board := new Board();
    board.CreateTask("doing", "t1");
    board.CreateTask("doing", "t2");
    board.DeleteColumn("doing");
    assert ColumnIds(DefaultColumns) == ["todo", "doing", "done"];
    assert "doing" !in ColumnIds(board.columns);
    assert |board.tasks| == 2;
    assert board.tasks[0].columnId == "doing" && board.tasks[1].columnId == "doing";
  }
}
