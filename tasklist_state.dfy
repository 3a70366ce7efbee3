/**
 * The WnckTasklist widget (libwnck/tasklist.c) as an object: its task lists,
 * the active task and class group whose buttons are shown pressed, the
 * cells the last allocation gave the buttons, and the pending activation.
 * The lists are rebuilt from the screen by UpdateLists, reordered by
 * SizeAllocate and shortened by Remove; the pressed buttons follow the
 * active window.
 */
module TasklistState {
  import opened Base
  import opened Tasks
  import opened Scoring
  import opened Placement
  import opened Inclusion
  import opened TaskLists
  import Geometry
  import Navigation
  import TaskOps

  class Tasklist {
    var realized: bool
    var filter: Filter
    var windows: seq<Task>
    var classGroups: seq<Task>
    var noClass: seq<Task>
    var startups: seq<Task>
    var skipped: seq<Window>
    var activeTask: Option<TaskKey>
    var activeClassGroup: Option<TaskKey>
    var buttons: map<TaskKey, TaskOps.Button>
    var cells: map<TaskKey, Cell>
    var activatePending: bool

    /**
     * The lists partition the window tasks as the allocation expects, every
     * window and group task has a button, and the pressed buttons are those
     * of the active task and class group.
     */
    ghost predicate Valid()
      reads `windows, `classGroups, `noClass, `startups, `buttons, `activeTask, `activeClassGroup
    {
      Inv(windows, classGroups, noClass, startups, buttons, activeTask, activeClassGroup)
    }

    /** wnck_tasklist_init: an unrealized tasklist with no tasks. */
    constructor (f: Filter)
      ensures Valid() && !realized && filter == f
      ensures windows == [] && classGroups == [] && noClass == [] && startups == [] && skipped == []
      ensures activeTask.None? && activeClassGroup.None? && !activatePending
    {
      realized := false;
      filter := f;
      windows, classGroups, noClass, startups, skipped := [], [], [], [], [];
      activeTask, activeClassGroup := None, None;
      buttons, cells := map[], map[];
      activatePending := false;
    }

    /**
     * wnck_tasklist_change_active_task: release the old active task's button
     * and press the new one's, then do the same for their class groups. An
     * unchanged task changes nothing; no task leaves the class group alone.
     */
    method ChangeActiveTask(active: Option<Task>)
      requires Valid()
      requires active.Some? ==> active.value.WindowTask? && Key(active.value) in Keys(windows)
      modifies `buttons, `activeTask, `activeClassGroup
      ensures Valid()
      ensures buttons.Keys == old(buttons.Keys)
      ensures active.Some? && old(activeTask) == Some(Key(active.value)) ==>
        unchanged(`activeTask, `activeClassGroup, `buttons)
      ensures activeTask == if active.Some? then Some(Key(active.value)) else None
      ensures active.None? ==> activeClassGroup == old(activeClassGroup)
      ensures active.Some? && old(activeTask) != Some(Key(active.value)) ==>
        activeClassGroup == GroupLookup(classGroups, active.value.win.classGroup.id)
    {
      buttons, activeTask, activeClassGroup :=
        ChangeActive(windows, classGroups, noClass, startups, buttons, activeTask, activeClassGroup, active);
    }

    /**
     * wnck_tasklist_active_window_changed: the task of the active window, or
     * of the first window along its transient-for chain that has one, becomes
     * the active task (the walk stops at any window already seen).
     */
    method ActiveWindowChanged(activeWindow: Option<nat>, transients: map<nat, nat>)
      requires Valid()
      modifies `buttons, `activeTask, `activeClassGroup
      ensures Valid()
      ensures buttons.Keys == old(buttons.Keys)
      ensures ActiveFound(windows, activeWindow, transients, activeTask)
      ensures activeTask.None? ==> activeClassGroup == old(activeClassGroup)
      ensures activeTask.Some? && activeTask == old(activeTask) ==> unchanged(`buttons, `activeClassGroup)
      ensures activeTask != old(activeTask) ==> GroupOfActive(windows, classGroups, activeTask, activeClassGroup)
    {
      buttons, activeTask, activeClassGroup := ActiveChanged(windows, classGroups, noClass, startups, buttons,
                                                             activeTask, activeClassGroup, activeWindow, transients);
    }

    /**
     * wnck_tasklist_free_tasks: no task is active any more, and destroying the
     * window and group buttons empties those lists; startup tasks stay.
     */
    method FreeTasks()
      requires Valid()
      modifies `windows, `classGroups, `noClass, `skipped, `buttons, `activeTask, `activeClassGroup
      ensures Valid()
      ensures activeTask == None && activeClassGroup == None
      ensures windows == [] && classGroups == [] && noClass == [] && skipped == []
      ensures buttons == StartupButtons(old(buttons))
    {
      FreedInv(windows, classGroups, noClass, startups, buttons, activeTask, activeClassGroup);
      activeTask, activeClassGroup := None, None;
      windows, classGroups, noClass, skipped := [], [], [], [];
      buttons := StartupButtons(buttons);
    }

    /**
     * wnck_tasklist_update_lists: free the tasks, and when realized rebuild
     * the lists from the screen's windows (in the screen's stacking order)
     * and find the active task again.
     */
    method UpdateLists(screen: seq<Window>, activeWindow: Option<nat>, transients: map<nat, nat>)
      requires Valid()
      modifies `windows, `classGroups, `noClass, `startups, `skipped, `buttons, `activeTask, `activeClassGroup
      ensures Valid()
      ensures Updated(old(realized), old(filter), screen, old(startups), old(buttons), windows, classGroups, noClass,
                      skipped, startups, buttons, activeTask, activeClassGroup, activeWindow, transients)
    {
      var w, g, n, k, r, b, t, cg := Update(realized, filter, screen, windows, classGroups, noClass, startups,
                                            buttons, activeTask, activeClassGroup, activeWindow, transients);
      windows, classGroups, noClass, skipped, startups, buttons, activeTask, activeClassGroup := w, g, n, k, r, b, t, cg;
    }

    /**
     * The end of wnck_tasklist_size_allocate: with the groups scored, lay the
     * buttons out, give each task its cell, and keep the windows in the order
     * of the buttons they are shown on.
     */
    method SizeAllocate(policy: Grouping, groupingLimit: int, maxWidth: int, maxHeight: int,
                        alloc: Rect, rtl: bool, scores: seq<int>)
      returns (grid: Geometry.Grid, visible: seq<Task>)
      requires Valid() && maxHeight >= 1
      requires |scores| == |classGroups| && forall i :: 0 <= i < |scores| ==> scores[i] >= MinScore
      modifies `classGroups, `windows, `cells
      ensures Valid()
      ensures Reallocated(policy, groupingLimit, maxWidth, maxHeight, alloc, rtl, scores, old(windows),
                          old(classGroups), old(noClass), old(startups), old(cells), grid, visible,
                          classGroups, windows, cells)
    {
      var classGroups', windows', cells';
      grid, visible, classGroups', windows', cells' :=
        Reallocate(policy, groupingLimit, maxWidth, maxHeight, alloc, rtl, scores, windows, classGroups,
                   noClass, startups, buttons, activeTask, activeClassGroup, cells);
      classGroups, windows, cells := classGroups', windows', cells';
    }

    /** wnck_tasklist_remove: the task with the key leaves every list it is first found in. */
    method Remove(k: TaskKey)
      modifies `windows, `classGroups, `noClass, `startups, `buttons
      ensures noClass == RemoveTask(old(noClass), k) && windows == RemoveTask(old(windows), k)
      ensures classGroups == RemoveTask(old(classGroups), k) && startups == RemoveTask(old(startups), k)
      ensures buttons == old(buttons) - {k}
      ensures k.StartupKey? && old(Valid()) ==> Valid()
    {
      var w, g, n, r, b := RemoveKey(windows, classGroups, noClass, startups, buttons, activeTask, activeClassGroup, k);
      windows, classGroups, noClass, startups, buttons := w, g, n, r, b;
    }

    /**
     * wnck_tasklist_check_end_sequence: a new window completes the first
     * startup sequence it matches by WM_CLASS, whose button is then
     * destroyed.
     */
    method CheckEndSequence(w: Window)
      requires Valid()
      modifies `windows, `classGroups, `noClass, `startups, `buttons
      ensures Valid()
      ensures startups == (match FirstEnded(old(startups), w)
        case None => old(startups)
        case Some(i) => RemoveTask(old(startups), Key(old(startups)[i])))
      ensures buttons == (match FirstEnded(old(startups), w)
        case None => old(buttons)
        case Some(i) => old(buttons) - {Key(old(startups)[i])})
      ensures unchanged(`windows, `classGroups, `noClass)
    {
      if startups == [] {
        return;
      }
      if w.resClass.None? && w.resName.None? {
        assert FirstEnded(startups, w).None? by {
          if FirstEnded(startups, w).Some? {
            NamelessEndsNothing(w, startups[FirstEnded(startups, w).value]);
          }
        }
        return;
      }
      var i := 0;
      while i < |startups|
        invariant 0 <= i <= |startups|
        invariant forall j :: 0 <= j < i ==> !EndsSequence(w, startups[j])
      {
        var t := startups[i];
        assert t in startups;
        if t.startup.wmclass.Some? &&
           (w.resClass == t.startup.wmclass || w.resName == t.startup.wmclass) {
          break;
        }
        i := i + 1;
      }
      if i < |startups| {
        assert FirstEnded(startups, w) == Some(i);
        assert startups[i] in startups;
        RemoveStartupInv(windows, classGroups, noClass, startups, buttons, activeTask, activeClassGroup,
                         Key(startups[i]));
        Remove(Key(startups[i]));
      }
    }

    /**
     * wnck_tasklist_activate_task_window: unminimize a minimized window,
     * minimize one that is already active on the current workspace, and
     * otherwise activate it; except after minimizing, the task becomes the
     * active one and a re-check of the active window is scheduled.
     */
    method ActivateTaskWindow(t: Task, minimized: bool, wasActive: bool, transientMostRecent: bool,
                              switchWorkspaceOnUnminimize: bool)
      returns (action: WindowAction)
      requires Valid() && t.WindowTask? && Key(t) in Keys(windows)
      modifies `activatePending, `buttons, `activeTask, `activeClassGroup
      ensures Valid()
      ensures minimized ==> action == Unminimize(
        if t.win.workspace.Some? && !OnActiveWorkspace(filter, t.win) && !switchWorkspaceOnUnminimize
        then t.win.workspace else None)
      ensures !minimized && (wasActive || transientMostRecent) && OnActiveWorkspace(filter, t.win) ==>
        action == Minimize
      ensures !minimized && !((wasActive || transientMostRecent) && OnActiveWorkspace(filter, t.win)) ==>
        action == Activate(t.win.workspace)
      ensures action == Minimize ==>
        unchanged(`activeTask, `activeClassGroup, `activatePending, `buttons)
      ensures action != Minimize ==> activatePending && activeTask == Some(Key(t))
      ensures action != Minimize ==> buttons.Keys == old(buttons.Keys)
      ensures action != Minimize && old(activeTask) == Some(Key(t)) ==> unchanged(`buttons, `activeClassGroup)
      ensures action != Minimize && old(activeTask) != Some(Key(t)) ==>
        activeClassGroup == GroupLookup(classGroups, t.win.classGroup.id)
    {
      if minimized {
        action := Unminimize(
          if t.win.workspace.Some? && !OnActiveWorkspace(filter, t.win) && !switchWorkspaceOnUnminimize
          then t.win.workspace else None);
      } else if (wasActive || transientMostRecent) && OnActiveWorkspace(filter, t.win) {
        return Minimize;
      } else {
        action := Activate(t.win.workspace);
      }
      activatePending := true;
      ChangeActiveTask(Some(t));
    }

    /** wnck_tasklist_change_active_timeout: the pending activation is over; look at the active window again. */
    method ChangeActiveTimeout(activeWindow: Option<nat>, transients: map<nat, nat>)
      requires Valid()
      modifies `activatePending, `buttons, `activeTask, `activeClassGroup
      ensures Valid() && !activatePending
      ensures ActiveFound(windows, activeWindow, transients, activeTask)
      ensures activeTask.None? ==> activeClassGroup == old(activeClassGroup)
      ensures activeTask.Some? && activeTask == old(activeTask) ==> unchanged(`buttons, `activeClassGroup)
      ensures activeTask != old(activeTask) ==> GroupOfActive(windows, classGroups, activeTask, activeClassGroup)
    {
      activatePending := false;
      ActiveWindowChanged(activeWindow, transients);
    }

    /**
     * A click on a window task's button (wnck_task_button_toggled): the
     * button's pressed state is restored at once, and the window is
     * activated.
     */
    method ButtonClicked(t: Task, minimized: bool, wasActive: bool, transientMostRecent: bool,
                         switchWorkspaceOnUnminimize: bool)
      returns (action: WindowAction)
      requires Valid() && t.WindowTask? && Key(t) in Keys(windows)
      modifies `activatePending, `buttons, `activeTask, `activeClassGroup
      ensures Valid()
      ensures minimized ==> action == Unminimize(
        if t.win.workspace.Some? && !OnActiveWorkspace(filter, t.win) && !switchWorkspaceOnUnminimize
        then t.win.workspace else None)
      ensures !minimized && (wasActive || transientMostRecent) && OnActiveWorkspace(filter, t.win) ==>
        action == Minimize
      ensures !minimized && !((wasActive || transientMostRecent) && OnActiveWorkspace(filter, t.win)) ==>
        action == Activate(t.win.workspace)
      ensures action == Minimize ==> unchanged(`buttons, `activeTask, `activeClassGroup, `activatePending)
      ensures action != Minimize ==> activatePending && activeTask == Some(Key(t))
      ensures action != Minimize ==> buttons.Keys == old(buttons.Keys)
      ensures action != Minimize && old(activeTask) == Some(Key(t)) ==> unchanged(`buttons, `activeClassGroup)
      ensures action != Minimize && old(activeTask) != Some(Key(t)) ==>
        activeClassGroup == GroupLookup(classGroups, t.win.classGroup.id)
    {
      var reaction := TaskOps.Click(buttons[Key(t)]);
      buttons := buttons[Key(t) := reaction.button];
      assert buttons == old(buttons);
      action := ActivateTaskWindow(t, minimized, wasActive, transientMostRecent, switchWorkspaceOnUnminimize);
    }
  }
}
