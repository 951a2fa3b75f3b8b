/** The two records of the board (src/types.ts) and the optional value used for
    the "currently dragged" slots, which are `null` when nothing is lifted. */
module Types {

  datatype Option<T> = None | Some(value: T)

  /** A column: an opaque id and a title the user may rename. */
  datatype Column = Column(id: string, title: string)

  /** A task: an opaque id, the id of the column it belongs to, and its text. */
  datatype Task = Task(id: string, columnId: string, content: string)

  /** The ids of a column list, position by position. */
  function ColumnIds(columns: seq<Column>): (ids: seq<string>)
    ensures |ids| == |columns|
    ensures forall i :: 0 <= i < |columns| ==> ids[i] == columns[i].id
  {
    seq(|columns|, i requires 0 <= i < |columns| => columns[i].id)
  }

  /** The ids of a task list, position by position. Kept apart from
      `ColumnIds` because the two records are distinct types with no common
      supertype; a generic projection would need a function argument at
      every use. */
  function TaskIds(tasks: seq<Task>): (ids: seq<string>)
    ensures |ids| == |tasks|
    ensures forall i :: 0 <= i < |tasks| ==> ids[i] == tasks[i].id
  {
    seq(|tasks|, i requires 0 <= i < |tasks| => tasks[i].id)
  }
}
