/**
 * `buildWeeklyBars`: every project's tasks projected onto the seven
 * columns (Monday to Sunday) of the week that holds an anchor instant.
 */
module WeeklyBars {
  import opened Wrappers
  import opened Entities
  import opened DateMath

  /** One bar of the weekly calendar. */
  datatype Bar = Bar(projectIndex: int, title: string, startCol: int, endCol: int)

  /**
   * The date range of a task: both dates when both parse, the one that
   * parses on both ends when only one does, None when neither does.
   */
  function TaskRange(t: Task): (r: Option<(int, int)>)
    ensures r.None? <==> ParseDateInput(t.start).None? && ParseDateInput(t.end).None?
    ensures r.Some? && ParseDateInput(t.start).Some? ==> r.value.0 == ParseDateInput(t.start).value
    ensures r.Some? && ParseDateInput(t.end).Some? ==> r.value.1 == ParseDateInput(t.end).value
    ensures r.Some? && (ParseDateInput(t.start).None? || ParseDateInput(t.end).None?) ==> r.value.0 == r.value.1
  {
    var s, e := ParseDateInput(t.start), ParseDateInput(t.end);
    if s.None? && e.None? then None
    else Some((if s.Some? then s.value else e.value, if e.Some? then e.value else s.value))
  }

  /** The bar title: the task's title, or its project's name when the title is empty. */
  function BarTitle(p: Project, t: Task): (r: string)
    ensures t.title != "" ==> r == t.title
    ensures t.title == "" ==> r == p.name
    ensures r == "" <==> t.title == "" && p.name == ""
  {
    if t.title != "" then t.title else p.name
  }

  /** The bar of task `t` of project number `pIdx` for the week [ws, we], if the task has one. */
  function TaskBar(p: Project, pIdx: int, t: Task, ws: int, we: int): (b: Option<Bar>)
    ensures b.Some? <==> TaskRange(t).Some? && TaskRange(t).value.1 >= ws && TaskRange(t).value.0 <= we
    ensures b.Some? ==> b.value.projectIndex == pIdx && b.value.title == BarTitle(p, t)
    ensures b.Some? ==> 0 <= b.value.startCol <= 6 && 0 <= b.value.endCol <= 6
  {
    match TaskRange(t)
    case None => None
    case Some((rs, re)) =>
      if re < ws || rs > we then None
      else
        var clipStart := if rs < ws then ws else rs;
        var clipEnd := if re > we then we else re;
        Some(Bar(pIdx, BarTitle(p, t), Clamp(DaysDiff(ws, clipStart), 0, 6), Clamp(DaysDiff(ws, clipEnd), 0, 6)))
  }

  function BarsOf(b: Option<Bar>): seq<Bar> {
    if b.Some? then [b.value] else []
  }

  /** The bars of the first |tasks| tasks of project number `pIdx`, in task order. */
  function TaskBars(p: Project, pIdx: int, tasks: seq<Task>, ws: int, we: int): seq<Bar> {
    if tasks == [] then []
    else TaskBars(p, pIdx, tasks[..|tasks| - 1], ws, we) + BarsOf(TaskBar(p, pIdx, tasks[|tasks| - 1], ws, we))
  }

  /** The bars of all projects, in project order and, within a project, in task order. */
  function ProjectBars(projects: seq<Project>, ws: int, we: int): seq<Bar> {
    if projects == [] then []
    else
      var last := |projects| - 1;
      ProjectBars(projects[..last], ws, we) + TaskBars(projects[last], last, projects[last].tasks, ws, we)
  }

  /**
   * What `buildWeeklyBars(projects, weekStart)` returns: well-formed bars,
   * grouped by project in project order.
   */
  function WeeklyBarsOf(projects: seq<Project>, weekStart: int): (r: seq<Bar>)
    ensures forall b :: b in r ==> WellFormed(b, |projects|)
    ensures ProjectOrdered(r)
  {
    var ws, we := WeekStartOf(weekStart), WeekEndOf(weekStart);
    ProjectBarsWellFormed(projects, ws, we);
    ProjectBarsOrdered(projects, ws, we);
    ProjectBars(projects, ws, we)
  }

  /** The body of the inner loop of `buildWeeklyBars`: the bar one task pushes, if any. */
  method BarOfTask(p: Project, pIdx: int, t: Task, ws: int, we: int) returns (bar: Option<Bar>)
    ensures bar == TaskBar(p, pIdx, t, ws, we)
  {
    bar := None;
    var s := ParseDateInput(t.start);
    var e := ParseDateInput(t.end);
    if s.None? && e.None? {
      return;
    }
    var rs := if s.Some? then s.value else e.value;
    var re := if e.Some? then e.value else s.value;
    if re < ws || rs > we {
      return;
    }
    var clipStart := if rs < ws then ws else rs;
    var clipEnd := if re > we then we else re;
    var startCol := Clamp(DaysDiff(ws, clipStart), 0, 6);
    var endCol := Clamp(DaysDiff(ws, clipEnd), 0, 6);
    bar := Some(Bar(pIdx, BarTitle(p, t), startCol, endCol));
  }

  /** `buildWeeklyBars`: two nested loops that push one bar per task that has one. */
  method BuildWeeklyBars(projects: seq<Project>, weekStart: int) returns (bars: seq<Bar>)
    ensures bars == WeeklyBarsOf(projects, weekStart)
  {
    var ws := StartOfWeek(weekStart);
    var we := EndOfWeek(weekStart);
    bars := [];
    var pIdx := 0;
    while pIdx < |projects|
      invariant 0 <= pIdx <= |projects|
      invariant bars == ProjectBars(projects[..pIdx], ws, we)
    {
      var p := projects[pIdx];
      var tIdx := 0;
      while tIdx < |p.tasks|
        invariant 0 <= tIdx <= |p.tasks|
        invariant bars == ProjectBars(projects[..pIdx], ws, we) + TaskBars(p, pIdx, p.tasks[..tIdx], ws, we)
      {
        var bar := BarOfTask(p, pIdx, p.tasks[tIdx], ws, we);
        if bar.Some? {
          bars := bars + [bar.value];
        }
        TaskBarsStep(p, pIdx, p.tasks, tIdx, ws, we);
        tIdx := tIdx + 1;
      }
      ProjectBarsStep(projects, pIdx, ws, we);
      pIdx := pIdx + 1;
    }
    assert projects[..pIdx] == projects;
  }

  lemma TaskBarsStep(p: Project, pIdx: int, tasks: seq<Task>, i: int, ws: int, we: int)
    requires 0 <= i < |tasks|
    ensures TaskBars(p, pIdx, tasks[..i + 1], ws, we)
         == TaskBars(p, pIdx, tasks[..i], ws, we) + BarsOf(TaskBar(p, pIdx, tasks[i], ws, we))
  {
    assert tasks[..i + 1][..i] == tasks[..i];
  }

  lemma ProjectBarsStep(projects: seq<Project>, i: int, ws: int, we: int)
    requires 0 <= i < |projects|
    ensures ProjectBars(projects[..i + 1], ws, we)
         == ProjectBars(projects[..i], ws, we) + TaskBars(projects[i], i, projects[i].tasks[..|projects[i].tasks|], ws, we)
  {
    assert projects[..i + 1][..i] == projects[..i];
    assert projects[i].tasks[..|projects[i].tasks|] == projects[i].tasks;
  }

  /** A bar is well formed: both columns are weekdays and the project index names a project. */
  predicate WellFormed(b: Bar, n: int) {
    0 <= b.projectIndex < n && 0 <= b.startCol <= 6 && 0 <= b.endCol <= 6
  }

  /** Projects appear in order: a bar never precedes a bar of an earlier project. */
  predicate ProjectOrdered(bars: seq<Bar>) {
    forall i, j :: 0 <= i < j < |bars| ==> bars[i].projectIndex <= bars[j].projectIndex
  }

  lemma {:induction false} TaskBarsShape(p: Project, pIdx: int, tasks: seq<Task>, ws: int, we: int)
    ensures |TaskBars(p, pIdx, tasks, ws, we)| <= |tasks|
    ensures forall b :: b in TaskBars(p, pIdx, tasks, ws, we) ==>
      b.projectIndex == pIdx && 0 <= b.startCol <= 6 && 0 <= b.endCol <= 6
  {
    if tasks != [] {
      TaskBarsShape(p, pIdx, tasks[..|tasks| - 1], ws, we);
    }
  }

  /** Every bar is well formed, and there is at most one bar per task. */
  lemma {:induction false} ProjectBarsWellFormed(projects: seq<Project>, ws: int, we: int)
    ensures forall b :: b in ProjectBars(projects, ws, we) ==> WellFormed(b, |projects|)
  {
    if projects != [] {
      var last := |projects| - 1;
      ProjectBarsWellFormed(projects[..last], ws, we);
      TaskBarsShape(projects[last], last, projects[last].tasks, ws, we);
    }
  }

  /** Bars are grouped by project, in project order. */
  lemma {:induction false} ProjectBarsOrdered(projects: seq<Project>, ws: int, we: int)
    ensures ProjectOrdered(ProjectBars(projects, ws, we))
  {
    if projects != [] {
      var last := |projects| - 1;
      var front := ProjectBars(projects[..last], ws, we);
      var tail := TaskBars(projects[last], last, projects[last].tasks, ws, we);
      ProjectBarsOrdered(projects[..last], ws, we);
      ProjectBarsWellFormed(projects[..last], ws, we);
      TaskBarsShape(projects[last], last, projects[last].tasks, ws, we);
      var all := front + tail;
      forall i, j | 0 <= i < j < |all|
        ensures all[i].projectIndex <= all[j].projectIndex
      {
        if j < |front| {
        } else if i < |front| {
          assert all[i] in front;
          assert all[j] in tail;
        } else {
          assert all[i] in tail && all[j] in tail;
        }
      }
    }
  }

  /**
   * Within the week [WeekStartOf(x), WeekEndOf(x)] the clamp never acts:
   * the columns are the whole-day offsets, from the week's Monday, of the
   * range clipped to the week.
   */
  lemma TaskBarColumns(p: Project, pIdx: int, t: Task, x: int)
    requires TaskBar(p, pIdx, t, WeekStartOf(x), WeekEndOf(x)).Some?
    ensures var ws, we := WeekStartOf(x), WeekEndOf(x);
      var (rs, re) := TaskRange(t).value;
      var b := TaskBar(p, pIdx, t, ws, we).value;
      b.startCol == DaysDiff(ws, if rs < ws then ws else rs) &&
      b.endCol == DaysDiff(ws, if re > we then we else re)
  {
    var ws, we := WeekStartOf(x), WeekEndOf(x);
    var (rs, re) := TaskRange(t).value;
    var cs := if rs < ws then ws else rs;
    var ce := if re > we then we else re;
    DaysDiffWithinWeek(ws, we, cs);
    DaysDiffWithinWeek(ws, we, ce);
  }

  lemma DaysDiffWithinWeek(ws: int, we: int, c: int)
    requires we == ws + 7 * DAY_MS - 1 && ws <= c <= we
    ensures 0 <= DaysDiff(ws, c) <= 6
  {
  }

  /** A task with a date on one side only is drawn on a single day. */
  lemma SingleDateTask(p: Project, pIdx: int, t: Task, ws: int, we: int)
    requires ParseDateInput(t.start).None? || ParseDateInput(t.end).None?
    requires TaskBar(p, pIdx, t, ws, we).Some?
    ensures TaskBar(p, pIdx, t, ws, we).value.startCol == TaskBar(p, pIdx, t, ws, we).value.endCol
  {
  }

  /** A range that runs forward gives a bar that runs forward. */
  lemma ForwardRange(p: Project, pIdx: int, t: Task, ws: int, we: int)
    requires ws <= we
    requires TaskRange(t).Some? && TaskRange(t).value.0 <= TaskRange(t).value.1
    requires TaskBar(p, pIdx, t, ws, we).Some?
    ensures TaskBar(p, pIdx, t, ws, we).value.startCol <= TaskBar(p, pIdx, t, ws, we).value.endCol
  {
    var (rs, re) := TaskRange(t).value;
    var cs := if rs < ws then ws else rs;
    var ce := if re > we then we else re;
    var b := TaskBar(p, pIdx, t, ws, we).value;
    assert b.startCol == Clamp(DaysDiff(ws, cs), 0, 6) && b.endCol == Clamp(DaysDiff(ws, ce), 0, 6);
    assert re >= ws && rs <= we;
    DaysDiffMonotone(ws, cs, ce);
  }

  lemma DaysDiffMonotone(a: int, b: int, c: int)
    requires b <= c
    ensures DaysDiff(a, b) <= DaysDiff(a, c)
  {
  }

  /** The one-project, one-task fixture of the module's own runtime tests. */
  const SampleProjects: seq<Project> :=
    [Project("", "P1", "", 0, [Task("", "T1", "", "2025-08-22", "2025-08-27", None)])]

  /** Monday 18 August 2025 (day 20318) starts its own week, at noon and at midnight. */
  lemma SampleWeek()
    ensures WeekStartOf(LocalDateTime(2025, 7, 18, 12, 0, 0, 0)) == 20318 * DAY_MS
    ensures WeekStartOf(LocalDateTime(2025, 7, 18, 0, 0, 0, 0)) == 20318 * DAY_MS
    ensures WeekEndOf(LocalDateTime(2025, 7, 18, 0, 0, 0, 0)) == 20325 * DAY_MS - 1
  {
    August2025(18);
    Day20318Week();
  }

  lemma Day20318Week()
    ensures WeekStartOf(20318 * DAY_MS + NOON_MS) == 20318 * DAY_MS
    ensures WeekStartOf(20318 * DAY_MS) == 20318 * DAY_MS
  {
    assert (20318 + 4) % 7 == 1;
    MondayWeekStart(20318, NOON_MS);
    MondayWeekStart(20318, 0);
  }

  /** The fixture's task, in the week of day 20318: Friday (column 4) to Sunday (column 6). */
  lemma SampleTaskBar()
    ensures TaskBar(SampleProjects[0], 0, SampleProjects[0].tasks[0], 20318 * DAY_MS, 20325 * DAY_MS - 1)
      == Some(Bar(0, "T1", 4, 6))
  {
    ParseSampleDate();
    ParseSampleEndDate();
    var t := SampleProjects[0].tasks[0];
    assert TaskRange(t) == Some((20322 * DAY_MS + NOON_MS, 20327 * DAY_MS + NOON_MS));
    DaysDiffOfDays(20318, 20322, NOON_MS);
    DaysDiffOfDays(20318, 20324, DAY_MS - 1);
  }

  /**
   * The fixture's week holds one bar, titled after the task, from Friday
   * (column 4) to Sunday (column 6): the task runs on into the next week
   * and is clipped at the week's end.
   */
  lemma SampleBars()
    ensures WeeklyBarsOf(SampleProjects, LocalDateTime(2025, 7, 18, 0, 0, 0, 0)) == [Bar(0, "T1", 4, 6)]
  {
    August2025(18);
    SampleBarsOnDay();
  }

  lemma SampleBarsOnDay()
    ensures WeeklyBarsOf(SampleProjects, 20318 * DAY_MS) == [Bar(0, "T1", 4, 6)]
  {
    Day20318Week();
    assert WeekEndOf(20318 * DAY_MS) == 20325 * DAY_MS - 1;
    SampleProjectBars();
  }

  lemma SampleProjectBars()
    ensures ProjectBars(SampleProjects, 20318 * DAY_MS, 20325 * DAY_MS - 1) == [Bar(0, "T1", 4, 6)]
  {
    var ws, we := 20318 * DAY_MS, 20325 * DAY_MS - 1;
    var p := SampleProjects[0];
    SampleTaskBar();
    OneTask(p, 0, p.tasks[0], ws, we);
    OneProject(p, ws, we);
  }

  lemma OneTask(p: Project, pIdx: int, t: Task, ws: int, we: int)
    ensures TaskBars(p, pIdx, [t], ws, we) == BarsOf(TaskBar(p, pIdx, t, ws, we))
  {
    assert [t][..0] == [];
  }

  lemma OneProject(p: Project, ws: int, we: int)
    ensures ProjectBars([p], ws, we) == TaskBars(p, 0, p.tasks, ws, we)
  {
    assert [p][..0] == [];
  }

  /**
   * The fixture's last runtime check compares `endCol` with the unclipped
   * offset of the task's end date from the week's Monday: that offset is
   * 9, while the bar, clipped to the week, ends in column 6.
   */
  lemma SampleEndColumnCheck()
    ensures var ws, e := LocalDateTime(2025, 7, 18, 0, 0, 0, 0), ParseDateInput("2025-08-27");
      var bars := WeeklyBarsOf(SampleProjects, ws);
      e.Some? && DaysDiff(WeekStartOf(ws), e.value) == 9 &&
      |bars| == 1 && bars[0].endCol != DaysDiff(WeekStartOf(ws), e.value)
  {
    SampleWeek();
    SampleBars();
    ParseSampleEndDate();
    DaysDiffOfDays(20318, 20327, NOON_MS);
  }
}
