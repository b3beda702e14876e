# Planner core in Dafny

A model of the logic inside a React project planner. The planner keeps a
list of projects, each with an ordered list of tasks, plus the index of
the selected project (-1 when none is selected). Its views are:

- a detail panel for the selected project: tasks, their dates and progress, and the average progress;
- a weekly calendar that draws each task as a bar over the seven days of a week, Monday first.

There are two variants of the app:

- `src/App.jsx` keeps state in local storage only;
- `App.jsx` also syncs with a cloud document and chooses between the local and cloud copies with `resolve`.

Both variants share the helpers and the store operations. The model covers both and notes where they differ.

Modules:

- `Wrappers`: `Option`.
- `Text`: `String.prototype.trim` over the ECMAScript white-space and line-terminator characters; `split` on one character with its round trip through `join`; and the digit segments that `Number` accepts.
- `DateMath`: a local timeline without daylight-saving shifts.
  - Instants are integer milliseconds. Day `d` starts at `d * 86400000`, and day 0 (1970-01-01) was a Thursday.
  - Days from a civil date, `MakeDay` with month and day overflow, the constructor's mapping of years 0..99 to 1900..1999, and the getters.
  - `parseDateInput`, `startOfWeek`/`endOfWeek`, `daysDiff` and `clamp`. The week operations are methods that apply the source's `setDate(getDate() + k)` and `setHours` calls in order: `SetDate` is `MakeDay` of the instant's year and month with the new day of month, and `SetHours` replaces the time of day.
- `Reorder`: `moveItem`, a method that copies the list into an array and applies the two `splice` calls as in-place array methods. It is proved equal to `Moved`, a remove-then-insert function. `Moved`'s contract states that a move keeps the length and the multiset of elements and puts the moved element at `to`. Lemmas give where every other element lands and the round trip.
- `Progress`: `calcAverageProgress` with `Math.round` in integers.
- `Entities`: tasks, projects and the one-field task update.
- `WeeklyBars`: `buildWeeklyBars`.
  - A method with the source's two nested loops, proved equal to a specification by project and task.
  - Lemmas prove that bars are well formed and come in project order, that the clamp never acts, that a single-date task gives a single-day bar, and the behaviour on the source's own test fixture.
- `Sync`: `resolve`, where the latest snapshot wins and ties go to the cloud.
- `Planner`:
  - the selection updaters as pure functions, with lemmas that keep the selection valid and on the same project;
  - the store as a class `PlannerStore` whose methods are the project and task operations;
  - the session flag and the guard on the cloud callback.

Deliberate modelling choices:

- The store's invariant is `activeIndex == -1 || 0 <= activeIndex < |projects|`. Each method ensures that it holds afterwards if it held before, with two exceptions. `MoveProject` ensures this only for a destination inside the list, because its selection updater does not check `to`. `OnCloudLoaded` takes the cloud document's selection unchecked (sync.js:28), so it can break the invariant (`ActiveIndexNotValidated`).
- `addProject` never moves an existing selection. When nothing was selected it selects index 0 (src/App.jsx:156, App.jsx:154). That index is the new project only when the list was empty; otherwise it is the first old project (`AddSelectsFirst`).
- The effect that sets the session flag (App.jsx:115) also runs at mount, and it runs before the auth subscription. So the constructor leaves the flag set, and a mounted store never takes the cloud document (`MountThenCloud`). `OnCloudLoaded` still models both branches of the guard.

## Model

| member | source | states |
|---|---|---|
| Text.TrimStart | src/App.jsx:146 | the result is a suffix of the input, what it drops is all white space, and it does not start with white space |
| Text.TrimEnd | src/App.jsx:146 | the result is a prefix of the input, what it drops is all white space, and it does not end with white space |
| Text.Trim | src/App.jsx:146-149 | the input is a blank prefix, then the result, then a blank suffix; the result has no white space at either end and is empty exactly when the input is blank |
| Text.BlankIffTrimmedEmpty | src/App.jsx:146 | `!s.trim()` holds exactly when every character of `s` is white space |
| Text.TrimStartBlank | src/App.jsx:146 | trimming the start leaves nothing exactly when the text is blank |
| Text.TrimEndBlank | src/App.jsx:146 | trimming the end leaves nothing exactly when the text is blank |
| Text.Split | src/App.jsx:69 | `split("-")` yields one more piece than there are separators, and no piece contains the separator |
| Text.SplitJoin | src/App.jsx:69 | joining the pieces of a split with the separator gives back the input |
| Text.SplitNoSeparator | src/App.jsx:69 | text without a separator splits into itself alone |
| Text.SplitAtSeparator | src/App.jsx:69 | a separator after a separator-free head splits off exactly that head |
| Text.SplitThree | src/App.jsx:69-70 | `a-b-c` with separator-free parts splits into exactly `[a, b, c]` |
| Text.SegmentNumber | src/App.jsx:69-70 | a segment is a number exactly when it is all digits, and the empty segment is 0 |
| DateMath.YearOfEraLength | src/App.jsx:73 | consecutive March-based years of a 400-year era differ by 365 or 366 days, according to the leap rule |
| DateMath.LeapYearOfEra | src/App.jsx:73 | the leap-year rule repeats every 400 years |
| DateMath.MarchYearLength | src/App.jsx:73 | a March-based year has 366 days exactly when the following calendar year is a leap year |
| DateMath.MonthLength | src/App.jsx:73 | the first days of consecutive months, December to January included, are the month's length apart |
| DateMath.YearOfEraBounds | src/App.jsx:614 | a day of a 400-year era falls in one of its years 0 to 399, at most 365 days after that year's start |
| DateMath.CivilOfEra | src/App.jsx:614 | the date of a day of an era has a year 0 to 399 and a month 1 to 12 |
| DateMath.EraRoundTrip | src/App.jsx:614 | a day of an era is the day of its own year, month and day of month within the era, and the day of month is 1 to 31 |
| DateMath.CivilFromDays | src/App.jsx:614 | the month of any day number is between 1 and 12 |
| DateMath.DaysFromMarchYear | src/App.jsx:614 | a date counted in a March-based year has the day number `DaysFromCivil` gives it |
| DateMath.MarchYearOfEra | src/App.jsx:614 | year k of era e starts `YearsOfEraDays(k)` days after the era's start |
| DateMath.CivilRoundTrip | src/App.jsx:614 | every day number is the day number of its own date (the getters' year, month and day), and that day of month is 1 to 31 |
| DateMath.MakeDayInYear | src/App.jsx:73 | within a year, `MakeDay` of a month is that month's first day plus the day of month less one |
| DateMath.ConstructorYear | src/App.jsx:73 | a year outside 0..99 is kept as it is, one inside becomes that year plus 1900, so the result never lies in 0..99 |
| DateMath.NoonOfDay | src/App.jsx:73 | `new Date(y, m, d, 12, 0, 0, 0)` is noon of the day `MakeDay` gives |
| DateMath.GetDate | src/App.jsx:614 | the day of the month is between 1 and 31 |
| DateMath.SetHours | src/App.jsx:81 | with a time of day inside one day, the instant stays on its day and takes exactly that time of day |
| DateMath.SetDate | src/App.jsx:80 | `setDate` keeps the time of day; `SetDateShift` adds that `setDate(getDate() + k)` lands exactly k days later |
| DateMath.MakeDayOfCivil | src/App.jsx:80 | `MakeDay` of a day's own year, month and day of month plus k is k days later |
| DateMath.SetDateShift | src/App.jsx:80 | `setDate(getDate() + k)` moves an instant by exactly k days, across month and year ends |
| DateMath.SetHoursDaysLater | src/App.jsx:81 | `setHours` on an instant k whole days after t gives that time on t's day plus k |
| DateMath.SetDateThenHours | src/App.jsx:80-81 | `setDate(getDate() + k)` then `setHours(...)` gives that time of the day k days later |
| DateMath.MondayOffset | src/App.jsx:78-79 | the source's day difference is minus the days since Monday |
| DateMath.MakeDayMonthOverflow | src/App.jsx:73 | in the Date constructor, month index 12 plus m is month m of the next year |
| DateMath.MakeDayDateOverflow | src/App.jsx:73 | in the Date constructor, the day after a month's last day is the first of the next month, and of January after December |
| DateMath.GetDay | src/App.jsx:78 | the weekday is between 0 (Sunday) and 6 |
| DateMath.GetMonth | src/App.jsx:614 | the month index is between 0 and 11 |
| DateMath.ParseDateInput | src/App.jsx:67-74 | the result is present exactly when the input is non-empty, splits into three segments on '-', and every segment is a number |
| DateMath.ParseThreeSegments | src/App.jsx:67-74 | three digit segments joined by '-' parse to noon of the date they spell, with the month shifted to a 0-based index |
| DateMath.ParseIsNoon | src/App.jsx:72-73 | whatever input is accepted, the parsed instant is noon of its day |
| DateMath.ParseMeetsCalendar | src/App.jsx:67-74 | with a month from 1 to 12, the parsed instant is noon of the first of that month plus the day number less one, in the constructor's year |
| DateMath.ParseRejectsShape | src/App.jsx:68-70 | the empty string, a string without '-', and a two-segment string give null |
| DateMath.ParseRejectsFourSegments | src/App.jsx:70 | a four-segment string gives null |
| DateMath.ParseRejectsMiddleSegment | src/App.jsx:69-70 | three segments whose middle one is not a number give null |
| DateMath.ParseRejectsNonNumber | src/App.jsx:70 | a segment such as "Aug" that is not a number gives null |
| DateMath.ParseAcceptsEmptySegments | src/App.jsx:69-73 | "--" is accepted: empty segments count as 0, giving noon of 1899-11-30 |
| DateMath.DayBeforeDecember1899 | src/App.jsx:73 | day 0 of month index -1 of 1900 is 30 November 1899 |
| DateMath.ParseSampleStart | src/App.jsx:613 | "2025-08-22" parses to noon of 22 August 2025 |
| DateMath.ParseSampleEnd | src/App.jsx:621 | "2025-08-27" parses to noon of 27 August 2025 |
| DateMath.SampleSegments | src/App.jsx:613 | the test's digit segments have the decimal values 2025, 8, 22 and 27 |
| DateMath.August2025 | src/App.jsx:615 | 1 August 2025 is day 20301, at noon and at midnight |
| DateMath.ParseSampleDate | src/App.jsx:613 | "2025-08-22" parses to noon of day 20322 |
| DateMath.ParseSampleEndDate | src/App.jsx:621 | "2025-08-27" parses to noon of day 20327 |
| DateMath.SampleDateGetters | src/App.jsx:614 | noon of day 20322 has year 2025, month index 7 and date 22 |
| DateMath.DayOfTime | src/App.jsx:81 | an instant within day d falls on day d |
| DateMath.DaysDiff | src/App.jsx:94-95 | the result is the number of whole days from a to b, rounded down |
| DateMath.DaysDiffOfDays | src/App.jsx:94-95 | from midnight of day d1 to any instant of day d2 is d2 - d1 days |
| DateMath.Clamp | src/App.jsx:93 | the result lies in [lo, hi], equals n inside it, and equals the nearer bound outside it |
| DateMath.WeekStartOf | src/App.jsx:76-83 | the week start is a Monday midnight, not after x and less than seven days before it |
| DateMath.WeekEndFacts | src/App.jsx:85-91 | the last millisecond of a week that starts on a Monday falls on Sunday, six whole days after the start |
| DateMath.WeekEndOf | src/App.jsx:85-91 | the week end is on the Sunday after the week start, not before x, and six whole days after the start |
| DateMath.WeekStartUnique | src/App.jsx:76-83 | any Monday midnight within the six days before x is x's week start |
| DateMath.MondayWeekStart | src/App.jsx:79-81 | any instant of a Monday has that Monday's midnight as its week start |
| DateMath.WeekStartIdempotent | src/App.jsx:76-83 | taking the week start twice gives the same result |
| DateMath.StartOfWeek | src/App.jsx:76-83 | the source's steps (getDay, shift by the day difference, setHours(0)) give the week start |
| DateMath.EndOfWeek | src/App.jsx:85-91 | the source's steps (week start, six days on, setHours(23,59,59,999)) give the week end |
| Reorder.RemoveAt | src/App.jsx:55 | `splice(from, 1)` shortens the list by one, shifts the tail left, and removes exactly one occurrence of the element |
| Reorder.InsertAt | src/App.jsx:56 | `splice(to, 0, x)` puts x at `to`, shifts the tail right, and adds exactly x |
| Reorder.Moved | src/App.jsx:52-58 | a `to` outside the list or equal to `from` returns the list unchanged; otherwise a move keeps the length and the multiset of elements, and puts the element from `from` at `to` |
| Reorder.MovedAt | src/App.jsx:52-58 | after a move, the elements between the two positions shift by one towards `from`, and all others stay put |
| Reorder.MovedBack | src/App.jsx:52-58 | moving the element back from `to` to `from` restores the list |
| Reorder.MovedBackAt | src/App.jsx:52-58 | after a move and the move back, each position holds its original element |
| Reorder.SpliceOut | src/App.jsx:55 | the in-place splice leaves the list without element `from` in the array's first slots |
| Reorder.SpliceIn | src/App.jsx:56 | the in-place splice leaves the array holding the list with x inserted at `to` |
| Reorder.MoveItem | src/App.jsx:52-58 | `moveItem` returns the moved list, or the list itself when `to` is outside it or equals `from` |
| Reorder.MoveToEndExample | src/App.jsx:604 | "A,B,C" moved from 0 to 2 gives "B,C,A" |
| Reorder.MoveToStartExample | src/App.jsx:605 | "A,B,C" moved from 2 to 0 gives "C,A,B" |
| Reorder.MoveOntoItselfExample | src/App.jsx:606 | "A,B,C" moved from 1 to 1 is unchanged |
| Progress.ProgressValue | src/App.jsx:62 | `Number(t.progress \|\| 0)` is the progress value, and 0 when it is missing |
| Progress.SumProgress | src/App.jsx:62 | a list whose progress values are all missing sums to 0 |
| Progress.CalcAverageProgress | src/App.jsx:60-64 | the result is 0 for an absent or empty list, otherwise the mean of the progress values (missing counts 0) rounded half up |
| Progress.RoundedQuotient | src/App.jsx:63 | the integer nearest to sum / n, with halves rounded up |
| Progress.SumProgressBounds | src/App.jsx:62 | when every progress is between 0 and 100, the sum is between 0 and 100 times the count |
| Progress.AverageIsPercentage | src/App.jsx:60-64 | when every progress is between 0 and 100, so is the average |
| Progress.AverageExamples | src/App.jsx:607-608 | 0, 50 and 100 average to 50, and no tasks give 0 |
| Entities.SetField | src/App.jsx:411 | `{ ...task, [key]: value }` changes the named field and keeps every other field and the id |
| WeeklyBars.TaskRange | src/App.jsx:116-121 | a task has a range exactly when one of its dates parses; a parsed date is used for its own end, and a lone date for both ends |
| WeeklyBars.BarTitle | src/App.jsx:128 | a non-empty task title is the title; an empty one gives the project's name; the title is empty only when both are |
| WeeklyBars.TaskBar | src/App.jsx:116-130 | a task gets a bar exactly when its range meets the week; the bar carries the project index and the title (task title, else project name), with columns in 0..6 |
| WeeklyBars.BarOfTask | src/App.jsx:116-130 | the source's per-task steps yield exactly that task's bar or none |
| WeeklyBars.BuildWeeklyBars | src/App.jsx:110-132 | the nested loops push, in project and task order, the bar of every task that has one in the week of `weekStart` |
| WeeklyBars.WeeklyBarsOf | src/App.jsx:110-132 | every bar of the result has columns in 0..6 and an existing project's index, and the bars come in project order |
| WeeklyBars.TaskBarsStep | src/App.jsx:114-130 | one more task adds its bar, if any, at the end |
| WeeklyBars.ProjectBarsStep | src/App.jsx:113-131 | one more project adds its tasks' bars at the end |
| WeeklyBars.TaskBarsShape | src/App.jsx:114-130 | a project contributes at most one bar per task, each with its own index and columns in 0..6 |
| WeeklyBars.ProjectBarsWellFormed | src/App.jsx:110-132 | every bar has columns in 0..6 and the index of an existing project |
| WeeklyBars.ProjectBarsOrdered | src/App.jsx:113-114 | bars never go back to an earlier project |
| WeeklyBars.TaskBarColumns | src/App.jsx:124-127 | within the week the clamp never acts: the columns are the whole-day offsets of the clipped range from Monday |
| WeeklyBars.DaysDiffWithinWeek | src/App.jsx:126-127 | an instant of the week is 0 to 6 whole days after its Monday |
| WeeklyBars.SingleDateTask | src/App.jsx:119-121 | a task with only one parseable date gets a one-day bar |
| WeeklyBars.ForwardRange | src/App.jsx:124-127 | a range that runs forward gives a bar whose start column is at most its end column |
| WeeklyBars.DaysDiffMonotone | src/App.jsx:94-95 | a later instant is no fewer whole days away |
| WeeklyBars.OneTask | src/App.jsx:114-130 | a one-task list yields that task's bar, if any |
| WeeklyBars.OneProject | src/App.jsx:113-131 | a one-project list yields that project's bars |
| WeeklyBars.Day20318Week | src/App.jsx:611 | day 20318 is a Monday and starts its own week |
| WeeklyBars.SampleWeek | src/App.jsx:609-612 | the week of 18 August 2025 starts at its midnight, whether the anchor is noon or midnight, and ends before day 20325 |
| WeeklyBars.SampleTaskBar | src/App.jsx:616-620 | the fixture task gets a bar from Friday (column 4) to Sunday (column 6) |
| WeeklyBars.SampleProjectBars | src/App.jsx:617-618 | the fixture project yields exactly that one bar |
| WeeklyBars.SampleBarsOnDay | src/App.jsx:617-618 | anchored on day 20318, the fixture yields exactly that one bar |
| WeeklyBars.SampleBars | src/App.jsx:615-620 | the fixture's week yields exactly one bar, titled "T1", from column 4 to the clipped column 6 |
| WeeklyBars.SampleEndColumnCheck | src/App.jsx:621 | the test's expected end column, the unclipped offset 9, differs from the bar's end column 6 |
| Sync.CloudTime | src/lib/sync.js:26 | the cloud time is the timestamp's milliseconds, or 0 without a timestamp |
| Sync.FromCloud | src/lib/sync.js:28 | the cloud side takes the projects or [], the selection or -1 when absent (0 kept), and the cloud time |
| Sync.Resolve | src/lib/sync.js:24-30 | no cloud document gives the local snapshot; otherwise the cloud document wins when its time is at least the local one, and the result's time is the later of the two |
| Sync.ResolveIsOneSide | src/lib/sync.js:27-29 | the result is the local snapshot or built from the cloud document alone |
| Sync.TieGoesToCloud | src/lib/sync.js:27 | equal times go to the cloud document |
| Sync.UntimedCloud | src/lib/sync.js:26-27 | for a cloud document without a timestamp, the result is the cloud snapshot when the local time is 0 or less, and the local snapshot otherwise |
| Sync.ResolveIdempotent | src/lib/sync.js:24-30 | resolving again against the same document changes nothing |
| Sync.ActiveIndexNotValidated | src/lib/sync.js:28 | a winning cloud selection is taken even when it names no project; an absent one becomes -1, and 0 is kept |
| Planner.AddRepair | src/App.jsx:156 | the selection after an append is never -1 from a valid start, and an existing selection is kept |
| Planner.DeleteRepair | src/App.jsx:165-170 | after deleting an index of the list, the selection is -1 or an index of the shorter list; deleting from a one-project list, or with nothing selected, gives -1 |
| Planner.MoveRepair | src/App.jsx:187-192 | a move onto itself keeps the selection, and an unselected project's index shifts by at most one |
| Planner.AddRepairValid | src/App.jsx:156 | after an append the selection is still valid, is never -1, and stays on the same project |
| Planner.AddSelectsFirst | src/App.jsx:156 | with nothing selected, an append selects the first project, not the new one |
| Planner.DeleteRepairValid | src/App.jsx:165-170 | after a delete the selection is -1 or a valid index |
| Planner.DeleteRepairSelection | src/App.jsx:165-170 | deleting the only project gives -1; deleting the selected one gives 0; otherwise the same project stays selected, at one index lower when an earlier project was deleted and at the same index when a later one was |
| Planner.MoveRepairValid | src/App.jsx:187-192 | after an in-list move the selection is -1 or a valid index |
| Planner.MoveRepairSelection | src/App.jsx:187-192 | after an in-list move the same project is selected |
| Planner.MoveRepairUnchecked | src/App.jsx:182-192 | moving the selected project one past the end leaves the list but selects no project |
| Planner.NewProject | src/App.jsx:146-153 | a blank name creates nothing; otherwise a project with the trimmed name, the folder emoji, colour count mod 8 and no tasks |
| Planner.DefaultTitle | App.jsx:375 | the title is the trimmed title, or "제목 없음" when that is blank, and never empty |
| Planner.PlannerStore.ActiveProject | src/App.jsx:202 | the selected project exactly when the index names one, else none |
| Planner.PlannerStore.constructor | App.jsx:99-115 | the state is the local snapshot and the session flag is set by the mount effect |
| Planner.PlannerStore.AddProject | src/App.jsx:145-157 | a blank name changes nothing; otherwise one project is appended and the selection updater runs; the invariant is kept |
| Planner.PlannerStore.DeleteProject | src/App.jsx:159-171 | the project is removed and the selection repaired from the pre-delete length; the invariant is kept |
| Planner.PlannerStore.UpdateProjectName | src/App.jsx:173-179 | only that project's name changes |
| Planner.PlannerStore.SaveName | src/App.jsx:391-395 | a blank name changes nothing; otherwise that project gets the trimmed name |
| Planner.PlannerStore.MoveProject | src/App.jsx:181-193 | the list is moved only for a destination inside it; the selection updater runs always; the invariant is kept for in-list moves |
| Planner.PlannerStore.AddTask | src/App.jsx:397-405 | a blank title changes nothing; otherwise the draft, with the given id and its title untrimmed, is appended to that project only |
| Planner.PlannerStore.AddTaskWithDefault | App.jsx:373-382 | always appends the draft with the given id and the trimmed-or-default title, to that project only |
| Planner.PlannerStore.UpdateTask | src/App.jsx:407-415 | only the named field of that task of that project changes |
| Planner.PlannerStore.DeleteTask | src/App.jsx:417-425 | only that task of that project is removed |
| Planner.PlannerStore.MoveTask | src/App.jsx:427-434 | that project's tasks are moved by `moveItem`; nothing else changes |
| Planner.PlannerStore.OnCloudLoaded | App.jsx:123-128 | with the session flag set nothing changes; otherwise the state becomes the resolved snapshot's projects and selection |
| Planner.EdgeTaskMoves | App.jsx:404-411 | moving the first task up or the last task down leaves the task list unchanged |
| Planner.MountThenCloud | App.jsx:112-128 | a freshly mounted store keeps its local state when the cloud document arrives |

## Left out

- Rendering, drag-and-drop wiring, the week label, colours and rotation: UI only. The drag handlers feed rendered indices into the move operations, which is why the store's index preconditions hold.
- Local storage (`usePersistentState`, `loadLocal`, `saveLocal`), Firebase auth and documents, the debounced cloud write and its `savingRef` busy flag: these are I/O and timers. `resolve` and `OnCloudLoaded` take the snapshots as parameters.
- The form state of the panels: the new-project text, the task draft and its reset, name editing, and the calendar's reference date. They are method parameters.
- `uid`/`makeId`: random ids, passed in as parameters.
- Time zones and daylight saving: the timeline has zero offset and no shifts. Parsing the ISO string of the test's reference date is modelled as the same local date-time.
- The Date range limit (±8.64e15 ms, beyond which a Date is invalid): instants are unbounded integers.
- DateMath.ParseDateInput: a segment is a number only when it is empty or all ASCII digits. JavaScript's `Number` also accepts surrounding white space, a sign, a fraction, an exponent, hex and `Infinity`, so the model accepts fewer inputs than the code. Non-string inputs are not modelled.
- DateMath.CivilFromDays: the round trip from a day number to its date and back is proved for every day (`CivilRoundTrip`). The converse, that the date of `DaysFromCivil(y, m, d)` is (y, m, d) for every valid date, is not proved.
- Progress.CalcAverageProgress: progress values are integers or absent. `Number` of other stored values and the floating-point division before `Math.round` are not modelled.
- Reorder.MoveItem: `from` must be an index of the list when the move is not a no-op. JavaScript's `splice` also takes negative indices, which count from the end.
- Planner.PlannerStore.DeleteProject: needs an index of the list. The updater reads the length from the render closure, which equals the current length because operations run one at a time; two deletes batched into one render are not modelled.
- Planner.PlannerStore.MoveProject: needs `from` to be an index of the list. The invariant is ensured only when `to` is one too (see `MoveRepairUnchecked`).
- Planner.PlannerStore.UpdateTask: needs project and task indices in range. Writing past the end of a JavaScript array is not modelled; the same holds for `DeleteTask`, `MoveTask`, `AddTask`, `AddTaskWithDefault`, `UpdateProjectName` and `SaveName`.
- Planner.PlannerStore.OnCloudLoaded: React's asynchronous scheduling is not modelled. The callback is one method call that sees the flag as it is at that moment.

## Findings

| source | as written | input that shows it | evidently intended | confidence | as-written member | corrected member |
|---|---|---|---|---|---|---|
| src/App.jsx:621 | the runtime test expects the bar's `endCol` to equal the unclipped `daysDiff` from Monday 2025-08-18 to the end date 2025-08-27, which is 9 | the fixture: one task from "2025-08-22" to "2025-08-27", week of 2025-08-18 | the bar is clipped to Sunday, so the expected end column is `clamp(daysDiff(ws, clipEnd), 0, 6)`, which is 6; App.jsx:561 has the same check | not executed | WeeklyBars.SampleEndColumnCheck | WeeklyBars.SampleBars |
