/**
 * The planner's state: the list of projects and the index of the selected
 * one (-1 for none), changed only through the operations of the project
 * list and of the project detail panel.
 */
module Planner {
  import opened Wrappers
  import opened Entities
  import Text
  import opened Reorder
  import opened Sync

  /** The selection names a project or nothing. */
  predicate ValidSelection(projects: seq<Project>, activeIndex: int) {
    activeIndex == -1 || 0 <= activeIndex < |projects|
  }

  // ----- The selection updaters, as pure functions of the previous index -----

  /** The selection after a project is added: the first project when nothing was selected. */
  function AddRepair(prev: int): (r: int)
    ensures prev >= -1 ==> r >= 0
    ensures prev >= 0 ==> r == prev
  {
    if prev == -1 then 0 else prev
  }

  /**
   * The selection after the project at `index` is deleted from a list that
   * had `n` projects: none when the list is now empty, the same project
   * when it stays, the first project when the selected one went.
   */
  function DeleteRepair(prev: int, index: int, n: int): (r: int)
    ensures 0 <= index < n && -1 <= prev < n ==> -1 <= r < n - 1
    ensures n == 1 ==> r == -1
    ensures prev == -1 && 0 <= index ==> r == -1
  {
    if n - 1 == 0 then -1
    else if prev > index then prev - 1
    else if prev == index then 0
    else prev
  }

  /** The selection after the project at `from` is moved to `to`. */
  function MoveRepair(prev: int, from: int, to: int): (r: int)
    ensures from == to ==> r == prev
    ensures prev != from ==> prev - 1 <= r <= prev + 1
  {
    if prev == from then to
    else if from < prev && to >= prev then prev - 1
    else if from > prev && to <= prev then prev + 1
    else prev
  }

  /** Adding a project keeps the selection valid and selects the first project when there was none. */
  lemma AddRepairValid(projects: seq<Project>, prev: int, p: Project)
    requires ValidSelection(projects, prev)
    ensures ValidSelection(projects + [p], AddRepair(prev))
    ensures AddRepair(prev) != -1
    ensures prev != -1 ==> (projects + [p])[AddRepair(prev)] == projects[prev]
  {
  }

  /**
   * With projects but nothing selected, adding a project selects the first
   * project of the list, not the one just added.
   */
  lemma AddSelectsFirst(projects: seq<Project>, p: Project)
    requires projects != []
    ensures (projects + [p])[AddRepair(-1)] == projects[0]
    ensures AddRepair(-1) != |projects|
  {
  }

  /** Deleting a project keeps the selection valid. */
  lemma DeleteRepairValid(projects: seq<Project>, prev: int, index: int)
    requires ValidSelection(projects, prev) && 0 <= index < |projects|
    ensures ValidSelection(RemoveAt(projects, index), DeleteRepair(prev, index, |projects|))
  {
  }

  /**
   * Deleting a project other than the selected one keeps the same project
   * selected, one index lower when the deleted project came before it and
   * at the same index when it came after; deleting the selected one selects the first project left,
   * and deleting the last project selects nothing.
   */
  lemma DeleteRepairSelection(projects: seq<Project>, prev: int, index: int)
    requires ValidSelection(projects, prev) && 0 <= index < |projects|
    ensures |projects| == 1 ==> DeleteRepair(prev, index, |projects|) == -1
    ensures |projects| > 1 && prev == index ==> DeleteRepair(prev, index, |projects|) == 0
    ensures |projects| > 1 && prev != -1 && prev != index ==>
      0 <= DeleteRepair(prev, index, |projects|) < |RemoveAt(projects, index)| &&
      RemoveAt(projects, index)[DeleteRepair(prev, index, |projects|)] == projects[prev]
    ensures |projects| > 1 && index < prev ==> DeleteRepair(prev, index, |projects|) == prev - 1
    ensures |projects| > 1 && prev < index ==> DeleteRepair(prev, index, |projects|) == prev
    ensures prev == -1 ==> DeleteRepair(prev, index, |projects|) == -1
  {
  }

  /** Moving a project within the list keeps the selection valid. */
  lemma MoveRepairValid(projects: seq<Project>, prev: int, from: int, to: int)
    requires ValidSelection(projects, prev) && 0 <= from < |projects| && 0 <= to < |projects|
    ensures ValidSelection(Moved(projects, from, to), MoveRepair(prev, from, to))
  {
  }

  /** Moving a project within the list keeps the same project selected. */
  lemma MoveRepairSelection(projects: seq<Project>, prev: int, from: int, to: int)
    requires 0 <= prev < |projects| && 0 <= from < |projects| && 0 <= to < |projects|
    ensures 0 <= MoveRepair(prev, from, to) < |Moved(projects, from, to)|
      && Moved(projects, from, to)[MoveRepair(prev, from, to)] == projects[prev]
  {
    if from != to && prev != from {
      var k := MoveRepair(prev, from, to);
      if from < prev <= to {
        assert k == prev - 1;
        MovedAt(projects, from, to, prev - 1);
      } else if to <= prev < from {
        assert k == prev + 1;
        MovedAt(projects, from, to, prev + 1);
      } else {
        assert k == prev;
        MovedAt(projects, from, to, prev);
      }
    }
  }

  /**
   * The selection updater of a move does not check `to`: moving the
   * selected project to one past the end leaves the project list as it was
   * but selects an index no project has.
   */
  lemma MoveRepairUnchecked(projects: seq<Project>, from: int)
    requires 0 <= from < |projects|
    ensures Moved(projects, from, |projects|) == projects
    ensures !ValidSelection(projects, MoveRepair(from, from, |projects|))
  {
  }

  /** The project a new-project form with text `name` and id `id` creates, if any. */
  function NewProject(name: string, id: string, count: int): (r: Option<Project>)
    ensures r.None? <==> Text.AllWhitespace(name)
    ensures r.Some? ==> r.value == Project(id, Text.Trim(name), FOLDER_EMOJI, count % PALETTE_SIZE, [])
    ensures r.Some? ==> r.value.name != [] && 0 <= r.value.colorIdx < PALETTE_SIZE
  {
    var trimmed := Text.Trim(name);
    if trimmed == [] then None else Some(Project(id, trimmed, FOLDER_EMOJI, count % PALETTE_SIZE, []))
  }

  /** The title the synced variant's add-task form gives a task: the trimmed title, or "untitled". */
  function DefaultTitle(title: string): (r: string)
    ensures r != []
    ensures Text.AllWhitespace(title) ==> r == UNTITLED
    ensures !Text.AllWhitespace(title) ==> r == Text.Trim(title)
  {
    var trimmed := Text.Trim(title);
    if trimmed == [] then UNTITLED else trimmed
  }

  /**
   * The planner component: its two persisted pieces of state and the
   * session flag that records that the state has changed since mount.
   */
  class PlannerStore {
    var projects: seq<Project>
    var activeIndex: int
    var userChanged: bool

    predicate Valid()
      reads this
    {
      ValidSelection(projects, activeIndex)
    }

    /** The selected project, or None when the index names no project. */
    function ActiveProject(): (r: Option<Project>)
      reads this
      ensures r.Some? <==> 0 <= activeIndex < |projects|
      ensures r.Some? ==> r.value == projects[activeIndex]
    {
      if 0 <= activeIndex < |projects| then Some(projects[activeIndex]) else None
    }

    /**
     * Mounting from the stored snapshot. The effect that marks the state
     * as changed runs once at mount, before any cloud document can arrive.
     */
    constructor (local: Snapshot)
      ensures projects == local.projects && activeIndex == local.activeIndex
      ensures userChanged
    {
      projects := local.projects;
      activeIndex := local.activeIndex;
      userChanged := true;
    }

    /** `addProject`: a non-blank name appends a project with the next colour. */
    method AddProject(name: string, id: string)
      modifies this`projects, this`activeIndex
      ensures Text.AllWhitespace(name) ==> projects == old(projects) && activeIndex == old(activeIndex)
      ensures !Text.AllWhitespace(name) ==>
        projects == old(projects) + [Project(id, Text.Trim(name), FOLDER_EMOJI, |old(projects)| % PALETTE_SIZE, [])] &&
        activeIndex == AddRepair(old(activeIndex))
      ensures old(Valid()) ==> Valid()
    {
      var created := NewProject(name, id, |projects|);
      if created.Some? {
        ghost var before := projects;
        projects := projects + [created.value];
        activeIndex := AddRepair(activeIndex);
        if ValidSelection(before, old(activeIndex)) {
          AddRepairValid(before, old(activeIndex), created.value);
        }
      }
    }

    /** `deleteProject(index)`: removes that project and repairs the selection. */
    method DeleteProject(index: int)
      requires 0 <= index < |projects|
      modifies this`projects, this`activeIndex
      ensures projects == RemoveAt(old(projects), index)
      ensures activeIndex == DeleteRepair(old(activeIndex), index, |old(projects)|)
      ensures old(Valid()) ==> Valid()
    {
      var n := |projects|;
      if Valid() {
        DeleteRepairValid(projects, activeIndex, index);
      }
      projects := RemoveAt(projects, index);
      activeIndex := DeleteRepair(activeIndex, index, n);
    }

    /** `updateProjectName(index, name)`: only that project's name changes. */
    method UpdateProjectName(index: int, name: string)
      requires 0 <= index < |projects|
      modifies this`projects
      ensures projects == old(projects)[index := old(projects)[index].(name := name)]
      ensures old(Valid()) ==> Valid()
    {
      projects := projects[index := projects[index].(name := name)];
    }

    /** `saveName`: the trimmed name, unless it is blank. */
    method SaveName(index: int, name: string)
      requires 0 <= index < |projects|
      modifies this`projects
      ensures Text.AllWhitespace(name) ==> projects == old(projects)
      ensures !Text.AllWhitespace(name) ==>
        projects == old(projects)[index := old(projects)[index].(name := Text.Trim(name))]
      ensures old(Valid()) ==> Valid()
    {
      var trimmed := Text.Trim(name);
      if trimmed != [] {
        UpdateProjectName(index, trimmed);
      }
    }

    /**
     * `moveProject(from, to)`: the list changes only for a `to` inside it;
     * the selection updater runs either way.
     */
    method MoveProject(from: int, to: int)
      requires 0 <= from < |projects|
      modifies this`projects, this`activeIndex
      ensures projects == (if 0 <= to < |old(projects)| then Moved(old(projects), from, to) else old(projects))
      ensures activeIndex == MoveRepair(old(activeIndex), from, to)
      ensures old(Valid()) && 0 <= to < |old(projects)| ==> Valid()
    {
      if 0 <= to < |projects| {
        if Valid() {
          MoveRepairValid(projects, activeIndex, from, to);
        }
        projects := MoveItem(projects, from, to);
      }
      activeIndex := MoveRepair(activeIndex, from, to);
    }

    /** `addTask` of the local-only variant: a blank title adds nothing. */
    method AddTask(index: int, draft: Task, id: string)
      requires 0 <= index < |projects|
      modifies this`projects
      ensures Text.AllWhitespace(draft.title) ==> projects == old(projects)
      ensures !Text.AllWhitespace(draft.title) ==>
        projects == old(projects)[index := old(projects)[index].(tasks := old(projects)[index].tasks + [draft.(id := id)])]
      ensures old(Valid()) ==> Valid()
    {
      if Text.Trim(draft.title) != [] {
        var p := projects[index];
        projects := projects[index := p.(tasks := p.tasks + [draft.(id := id)])];
      }
    }

    /** `addTask` of the synced variant: always adds, with the trimmed title or "untitled". */
    method AddTaskWithDefault(index: int, draft: Task, id: string)
      requires 0 <= index < |projects|
      modifies this`projects
      ensures projects == old(projects)[index := old(projects)[index].(tasks :=
        old(projects)[index].tasks + [draft.(title := DefaultTitle(draft.title), id := id)])]
      ensures old(Valid()) ==> Valid()
    {
      var p := projects[index];
      projects := projects[index := p.(tasks := p.tasks + [draft.(title := DefaultTitle(draft.title), id := id)])];
    }

    /** `updateTask(tIndex, key, value)`: only that field of that task changes. */
    method UpdateTask(index: int, tIndex: int, f: TaskField)
      requires 0 <= index < |projects| && 0 <= tIndex < |projects[index].tasks|
      modifies this`projects
      ensures var p := old(projects)[index];
        projects == old(projects)[index := p.(tasks := p.tasks[tIndex := SetField(p.tasks[tIndex], f)])]
      ensures old(Valid()) ==> Valid()
    {
      var p := projects[index];
      projects := projects[index := p.(tasks := p.tasks[tIndex := SetField(p.tasks[tIndex], f)])];
    }

    /** `deleteTask(tIndex)`: removes that task from the project. */
    method DeleteTask(index: int, tIndex: int)
      requires 0 <= index < |projects| && 0 <= tIndex < |projects[index].tasks|
      modifies this`projects
      ensures var p := old(projects)[index];
        projects == old(projects)[index := p.(tasks := RemoveAt(p.tasks, tIndex))]
      ensures old(Valid()) ==> Valid()
    {
      var p := projects[index];
      projects := projects[index := p.(tasks := RemoveAt(p.tasks, tIndex))];
    }

    /** `moveTask(from, to)`: moves one task of the project; a `to` outside the list moves nothing. */
    method MoveTask(index: int, from: int, to: int)
      requires 0 <= index < |projects| && 0 <= from < |projects[index].tasks|
      modifies this`projects
      ensures var p := old(projects)[index];
        projects == old(projects)[index := p.(tasks := Moved(p.tasks, from, to))]
      ensures old(Valid()) ==> Valid()
    {
      var p := projects[index];
      var tasks := MoveItem(p.tasks, from, to);
      projects := projects[index := p.(tasks := tasks)];
    }

    /**
     * The auth callback once the cloud document is loaded: nothing changes
     * when the state has changed since mount; otherwise the resolved
     * snapshot's projects and selection replace the state.
     */
    method OnCloudLoaded(localNow: Snapshot, cloud: Option<CloudDoc>)
      modifies this`projects, this`activeIndex
      ensures userChanged ==> projects == old(projects) && activeIndex == old(activeIndex)
      ensures !userChanged ==>
        projects == Resolve(localNow, cloud).projects && activeIndex == Resolve(localNow, cloud).activeIndex
    {
      if userChanged {
        return;
      }
      var picked := Resolve(localNow, cloud);
      projects := picked.projects;
      activeIndex := picked.activeIndex;
    }
  }

  /** Moving the first task up or the last task down leaves the task list as it was. */
  lemma EdgeTaskMoves(tasks: seq<Task>)
    requires tasks != []
    ensures Moved(tasks, 0, -1) == tasks
    ensures Moved(tasks, |tasks| - 1, |tasks|) == tasks
  {
  }

  /**
   * A freshly mounted store never takes the cloud document: the flag set
   * at mount makes the callback leave the state alone.
   */
  method MountThenCloud(local: Snapshot, localNow: Snapshot, cloud: Option<CloudDoc>) returns (s: PlannerStore)
    ensures s.projects == local.projects && s.activeIndex == local.activeIndex
  {
    s := new PlannerStore(local);
    s.OnCloudLoaded(localNow, cloud);
  }
}
