/** The planner's records: a project owns an ordered list of tasks. */
module Entities {
  import opened Wrappers

  /**
   * A task. `start` and `end` hold the text of a date input ("" when
   * unset); `progress` is None when the stored record has no usable value.
   */
  datatype Task = Task(
    id: string,
    title: string,
    description: string,
    start: string,
    end: string,
    progress: Option<int>)

  /** A project; `colorIdx` picks its colour and is fixed when it is created. */
  datatype Project = Project(
    id: string,
    name: string,
    emoji: string,
    colorIdx: int,
    tasks: seq<Task>)

  /** Number of colours in the project palette. */
  const PALETTE_SIZE := 8

  /** The emoji every new project gets. */
  const FOLDER_EMOJI := "📁"

  /** The title ("untitled") the synced variant gives a task added with a blank title. */
  const UNTITLED := "제목 없음"

  /** The empty draft the add-task form starts from and is reset to. */
  const EMPTY_DRAFT := Task("", "", "", "", "", Some(0))

  /** One editable field of a task with its new value, as `updateTask(tIndex, key, value)` receives them. */
  datatype TaskField =
    | Title(title: string)
    | Description(description: string)
    | Start(start: string)
    | End(end: string)
    | Progress(progress: int)

  /** `{ ...task, [key]: value }`: the task with one field replaced. */
  function SetField(t: Task, f: TaskField): (r: Task)
    ensures r.id == t.id
    ensures r.title == (if f.Title? then f.title else t.title)
    ensures r.description == (if f.Description? then f.description else t.description)
    ensures r.start == (if f.Start? then f.start else t.start)
    ensures r.end == (if f.End? then f.end else t.end)
    ensures r.progress == (if f.Progress? then Some(f.progress) else t.progress)
  {
    match f
    case Title(v) => t.(title := v)
    case Description(v) => t.(description := v)
    case Start(v) => t.(start := v)
    case End(v) => t.(end := v)
    case Progress(v) => t.(progress := Some(v))
  }
}
