/**
 * The task lists of the tasklist widget (libwnck/tasklist.c) as values: the
 * keys of a list, the lookups by class group and window, the removal of a
 * task, the startup sequences a new window ends, the pressed state of the
 * buttons, and the invariant the widget keeps over all of these together
 * with the steps that preserve it.
 */
module TaskLists {
  import opened Base
  import opened Tasks
  import opened Scoring
  import opened Placement
  import opened Inclusion
  import Geometry
  import Navigation
  import TaskOps

  // ---------------------------------------------------------------------
  // Keys of task lists

  lemma {:induction false} KeysMember(ws: seq<Task>, k: TaskKey)
    ensures k in Keys(ws) <==> exists i :: 0 <= i < |ws| && Key(ws[i]) == k
    decreases |ws|
  {
    if ws != [] {
      var init := ws[..|ws| - 1];
      KeysMember(init, k);
      if exists i :: 0 <= i < |init| && Key(init[i]) == k {
        var i :| 0 <= i < |init| && Key(init[i]) == k;
        assert Key(ws[i]) == k;
      }
      if exists i :: 0 <= i < |ws| && Key(ws[i]) == k {
        var i :| 0 <= i < |ws| && Key(ws[i]) == k;
        if i < |init| {
          assert Key(init[i]) == k;
        }
      }
    }
  }

  /** Lists holding the same tasks have the same keys. */
  lemma KeysOfPermutation(a: seq<Task>, b: seq<Task>)
    requires multiset(a) == multiset(b)
    ensures Keys(a) == Keys(b)
  {
    forall k | k in Keys(a) ensures k in Keys(b) {
      KeysMember(a, k);
      var i :| 0 <= i < |a| && Key(a[i]) == k;
      assert a[i] in multiset(b);
      var j :| 0 <= j < |b| && b[j] == a[i];
      KeysMember(b, k);
    }
    forall k | k in Keys(b) ensures k in Keys(a) {
      KeysMember(b, k);
      var i :| 0 <= i < |b| && Key(b[i]) == k;
      assert b[i] in multiset(a);
      var j :| 0 <= j < |a| && a[j] == b[i];
      KeysMember(a, k);
    }
  }

  /** The keys of window tasks are window keys, those of groups holding windows group keys. */
  lemma KeyKinds(windows: seq<Task>, classGroups: seq<Task>, startups: seq<Task>, k: TaskKey)
    requires AllWindowTasks(windows) && Populated(classGroups) && AllStartupTasks(startups)
    ensures k in Keys(windows) ==> k.WinKey?
    ensures k in Keys(classGroups) ==> k.GroupKey?
    ensures k in Keys(startups) ==> k.StartupKey?
  {
    KeysMember(windows, k);
    KeysMember(classGroups, k);
    KeysMember(startups, k);
    PopulatedAll(classGroups);
    if k in Keys(classGroups) {
      var i :| 0 <= i < |classGroups| && Key(classGroups[i]) == k;
      assert WindowCount(classGroups[i]) >= 1;
    }
    if k in Keys(startups) {
      var i :| 0 <= i < |startups| && Key(startups[i]) == k;
      assert startups[i] in startups;
    }
    if k in Keys(windows) {
      var i :| 0 <= i < |windows| && Key(windows[i]) == k;
      assert windows[i] in windows;
    }
  }

  // ---------------------------------------------------------------------
  // Lookups

  /** class_group_hash: the group task of the class group with the given id, if there is one. */
  function GroupLookup(classGroups: seq<Task>, id: string): (r: Option<TaskKey>)
    ensures r.Some? <==> exists i :: 0 <= i < |classGroups| && classGroups[i].GroupTask? && classGroups[i].group.id == id
    ensures r.Some? ==> r.value == GroupKey(id)
  {
    if classGroups == [] then None
    else if classGroups[0].GroupTask? && classGroups[0].group.id == id then Some(GroupKey(id))
    else
      var r := GroupLookup(classGroups[1..], id);
      assert forall i :: 1 <= i < |classGroups| ==> classGroups[i] == classGroups[1..][i - 1];
      r
  }

  lemma GroupLookupListed(classGroups: seq<Task>, id: string)
    requires GroupLookup(classGroups, id).Some?
    ensures GroupKey(id) in Keys(classGroups)
  {
    var i :| 0 <= i < |classGroups| && classGroups[i].GroupTask? && classGroups[i].group.id == id;
    assert Key(classGroups[i]) == GroupKey(id);
    KeysMember(classGroups, GroupKey(id));
  }

  /** win_hash: the windows the tasklist has a task for. */
  function Xids(windows: seq<Task>): set<nat>
  {
    set t | t in windows && t.WindowTask? :: t.win.xid
  }

  lemma XidFound(windows: seq<Task>, x: nat)
    requires x in Xids(windows)
    ensures Navigation.IndexOfKey(windows, WinKey(x)).Some?
  {
    var t :| t in windows && t.WindowTask? && t.win.xid == x;
    var m :| 0 <= m < |windows| && windows[m] == t;
    assert Key(windows[m]) == WinKey(x);
  }

  // ---------------------------------------------------------------------
  // Removing a task from a list

  /**
   * g_list_remove: the list without its first task with the given key, one
   * shorter exactly when some task has the key.
   */
  function RemoveTask(s: seq<Task>, k: TaskKey): (r: seq<Task>)
    ensures |r| == if Navigation.IndexOfKey(s, k).Some? then |s| - 1 else |s|
  {
    if s == [] then []
    else if Key(s[0]) == k then s[1..]
    else [s[0]] + RemoveTask(s[1..], k)
  }

  /** The removal cuts out the position that the search for the key finds, and nothing when it finds none. */
  lemma {:induction false} RemoveTaskAtFirst(s: seq<Task>, k: TaskKey)
    ensures Navigation.IndexOfKey(s, k).None? ==> RemoveTask(s, k) == s
    ensures Navigation.IndexOfKey(s, k).Some? ==>
      RemoveTask(s, k) == s[..Navigation.IndexOfKey(s, k).value] + s[Navigation.IndexOfKey(s, k).value + 1..]
  {
    if s != [] && Key(s[0]) != k {
      RemoveTaskAtFirst(s[1..], k);
      var i := Navigation.IndexOfKey(s[1..], k);
      if i.Some? {
        CutBehindHead(s, i.value);
      } else {
        assert [s[0]] + s[1..] == s;
      }
    }
  }

  /** Cutting position j out of the tail is cutting position j + 1 out of the list, behind its head. */
  lemma CutBehindHead(s: seq<Task>, j: nat)
    requires j + 1 < |s|
    ensures [s[0]] + (s[1..][..j] + s[1..][j + 1..]) == s[..j + 1] + s[j + 2..]
  {
    assert s[..j + 1] == [s[0]] + s[1..][..j];
    assert s[j + 2..] == s[1..][j + 1..];
  }

  /** Removing a key no task has changes nothing. */
  lemma {:induction false} RemoveTaskAbsent(s: seq<Task>, k: TaskKey)
    requires forall t :: t in s ==> Key(t) != k
    ensures RemoveTask(s, k) == s
  {
    if s != [] {
      assert s[0] in s;
      assert forall t :: t in s[1..] ==> t in s;
      RemoveTaskAbsent(s[1..], k);
      assert [s[0]] + s[1..] == s;
    }
  }

  /** Removing a key some task has takes out one such task and nothing else. */
  lemma {:induction false} RemoveTaskPresent(s: seq<Task>, k: TaskKey)
    requires exists t :: t in s && Key(t) == k
    ensures exists t :: t in s && Key(t) == k && multiset(RemoveTask(s, k)) + multiset{t} == multiset(s)
  {
    var tail := s[1..];
    assert s == [s[0]] + tail;
    if Key(s[0]) == k {
      assert s[0] in s;
    } else {
      var t :| t in s && Key(t) == k;
      assert t in tail;
      RemoveTaskPresent(tail, k);
      var u :| u in tail && Key(u) == k && multiset(RemoveTask(tail, k)) + multiset{u} == multiset(tail);
      assert u in s;
      calc {
        multiset(RemoveTask(s, k)) + multiset{u};
        multiset([s[0]] + RemoveTask(tail, k)) + multiset{u};
        multiset{s[0]} + (multiset(RemoveTask(tail, k)) + multiset{u});
        multiset{s[0]} + multiset(tail);
        multiset(s);
      }
    }
  }

  /** Removing takes out exactly one task with the key, when there is one, and nothing else. */
  lemma RemoveTaskEffect(s: seq<Task>, k: TaskKey)
    ensures (forall t :: t in s ==> Key(t) != k) ==> RemoveTask(s, k) == s
    ensures (exists t :: t in s && Key(t) == k) ==>
      exists t :: t in s && Key(t) == k && multiset(RemoveTask(s, k)) + multiset{t} == multiset(s)
    ensures multiset(RemoveTask(s, k)) <= multiset(s)
  {
    if exists t :: t in s && Key(t) == k {
      RemoveTaskPresent(s, k);
    } else {
      RemoveTaskAbsent(s, k);
    }
  }

  /** The search loop of wnck_tasklist_remove over one list, followed by the removal. */
  method RemoveFrom(s: seq<Task>, k: TaskKey) returns (r: seq<Task>)
    ensures r == RemoveTask(s, k)
  {
    RemoveTaskAtFirst(s, k);
    var i := 0;
    while i < |s|
      invariant 0 <= i <= |s|
      invariant forall m :: 0 <= m < i ==> Key(s[m]) != k
    {
      if Key(s[i]) == k {
        assert Navigation.IndexOfKey(s, k) == Some(i);
        return s[..i] + s[i + 1..];
      }
      i := i + 1;
    }
    return s;
  }

  // ---------------------------------------------------------------------
  // Startup sequences that end when a window appears

  /** A new window completes a startup sequence whose WM_CLASS is its class or instance name. */
  predicate EndsSequence(w: Window, t: Task)
  {
    t.StartupTask? && t.startup.wmclass.Some? &&
    (w.resClass == t.startup.wmclass || w.resName == t.startup.wmclass)
  }

  /** The first startup task that the window completes. */
  function FirstEnded(startups: seq<Task>, w: Window): (r: Option<nat>)
    ensures r.Some? ==>
      (r.value < |startups| && EndsSequence(w, startups[r.value]) &&
       forall j :: 0 <= j < r.value ==> !EndsSequence(w, startups[j]))
    ensures r.None? ==> forall j :: 0 <= j < |startups| ==> !EndsSequence(w, startups[j])
  {
    if startups == [] then None
    else if EndsSequence(w, startups[0]) then Some(0)
    else match FirstEnded(startups[1..], w)
      case None => None
      case Some(j) => Some(j + 1)
  }

  /** A window with neither a class nor an instance name completes no sequence. */
  lemma NamelessEndsNothing(w: Window, t: Task)
    requires w.resClass.None? && w.resName.None?
    ensures !EndsSequence(w, t)
  {
  }

  // ---------------------------------------------------------------------
  // Button states

  /**
   * The pressed buttons are exactly those of the active task and the active
   * class group; none is in the middle of a tasklist-driven change.
   */
  ghost predicate ButtonsShowActive(buttons: map<TaskKey, TaskOps.Button>,
                                    activeTask: Option<TaskKey>, activeClassGroup: Option<TaskKey>)
  {
    (forall k :: k in buttons ==>
      !buttons[k].reallyToggling &&
      (buttons[k].active <==> (Some(k) == activeTask || Some(k) == activeClassGroup))) &&
    (activeTask.Some? ==> activeTask.value.WinKey? && activeTask.value in buttons) &&
    (activeClassGroup.Some? ==> activeClassGroup.value.GroupKey? && activeClassGroup.value in buttons)
  }

  /** The tasklist's own change of one button's pressed state. */
  function Press(buttons: map<TaskKey, TaskOps.Button>, k: TaskKey, active: bool): (r: map<TaskKey, TaskOps.Button>)
    requires k in buttons && !buttons[k].reallyToggling
    ensures r.Keys == buttons.Keys
    ensures r[k].active == active && !r[k].reallyToggling
    ensures forall k' :: k' in buttons && k' != k ==> r[k'] == buttons[k']
  {
    buttons[k := TaskOps.TasklistSetActive(buttons[k], active)]
  }

  /** A fresh button (wnck_task_new_from_window and friends): not pressed. */
  const Idle: TaskOps.Button := TaskOps.Button(false, false)

  /** Releasing the active task's button leaves no task shown active. */
  lemma ReleaseTask(buttons: map<TaskKey, TaskOps.Button>, activeTask: Option<TaskKey>,
                    activeClassGroup: Option<TaskKey>)
    requires ButtonsShowActive(buttons, activeTask, activeClassGroup) && activeTask.Some?
    ensures activeTask.value in buttons && !buttons[activeTask.value].reallyToggling
    ensures ButtonsShowActive(Press(buttons, activeTask.value, false), None, activeClassGroup)
  {
  }

  /** Pressing a window task's button shows that task active. */
  lemma PressTask(buttons: map<TaskKey, TaskOps.Button>, activeClassGroup: Option<TaskKey>, k: TaskKey)
    requires ButtonsShowActive(buttons, None, activeClassGroup) && k in buttons && k.WinKey?
    ensures !buttons[k].reallyToggling
    ensures ButtonsShowActive(Press(buttons, k, true), Some(k), activeClassGroup)
  {
  }

  /** Releasing the active class group's button leaves no class group shown active. */
  lemma ReleaseGroup(buttons: map<TaskKey, TaskOps.Button>, activeTask: Option<TaskKey>,
                     activeClassGroup: Option<TaskKey>)
    requires ButtonsShowActive(buttons, activeTask, activeClassGroup) && activeClassGroup.Some?
    ensures activeClassGroup.value in buttons && !buttons[activeClassGroup.value].reallyToggling
    ensures ButtonsShowActive(Press(buttons, activeClassGroup.value, false), activeTask, None)
  {
  }

  /** Pressing a group task's button shows that class group active. */
  lemma PressGroup(buttons: map<TaskKey, TaskOps.Button>, activeTask: Option<TaskKey>, k: TaskKey)
    requires ButtonsShowActive(buttons, activeTask, None) && k in buttons && k.GroupKey?
    ensures !buttons[k].reallyToggling
    ensures ButtonsShowActive(Press(buttons, k, true), activeTask, Some(k))
  {
  }

  /**
   * The button changes of wnck_tasklist_change_active_task: a new active
   * task releases the old task's button and presses its own, then does the
   * same for the class groups, unless the class group stays the same; no
   * task leaves the class group as it is, and an unchanged task changes
   * nothing.
   */
  method SwitchActive(buttons: map<TaskKey, TaskOps.Button>, activeTask: Option<TaskKey>,
                      activeClassGroup: Option<TaskKey>, task: Option<TaskKey>, group: Option<TaskKey>)
    returns (buttons': map<TaskKey, TaskOps.Button>, activeTask': Option<TaskKey>,
             activeClassGroup': Option<TaskKey>)
    requires ButtonsShowActive(buttons, activeTask, activeClassGroup)
    requires task.Some? ==> task.value.WinKey? && task.value in buttons
    requires group.Some? ==> group.value.GroupKey? && group.value in buttons
    ensures ButtonsShowActive(buttons', activeTask', activeClassGroup') && buttons'.Keys == buttons.Keys
    ensures activeTask' == task
    ensures task.Some? && task == activeTask ==> activeClassGroup' == activeClassGroup && buttons' == buttons
    ensures task.Some? && task != activeTask ==> activeClassGroup' == group
    ensures task.None? ==> activeClassGroup' == activeClassGroup
  {
    buttons', activeTask', activeClassGroup' := buttons, activeTask, activeClassGroup;
    if task.Some? && activeTask' == task {
      return;
    }
    if activeTask'.Some? {
      ReleaseTask(buttons', activeTask', activeClassGroup');
      buttons' := Press(buttons', activeTask'.value, false);
    }
    activeTask' := task;
    if activeTask'.Some? {
      PressTask(buttons', activeClassGroup', activeTask'.value);
      buttons' := Press(buttons', activeTask'.value, true);
    }
    if task.Some? {
      if group.Some? && group == activeClassGroup' {
        return;
      }
      if activeClassGroup'.Some? {
        ReleaseGroup(buttons', activeTask', activeClassGroup');
        buttons' := Press(buttons', activeClassGroup'.value, false);
      }
      activeClassGroup' := group;
      if group.Some? {
        PressGroup(buttons', activeTask', group.value);
        buttons' := Press(buttons', group.value, true);
      }
    }
  }

  // ---------------------------------------------------------------------
  // Grouping scores

  /** A group task with the score of the last scoring round; other tasks carry none. */
  function WithScore(t: Task, score: int): Task
  {
    if t.GroupTask? then t.(score := score) else t
  }

  /** The group tasks with the scores of the last scoring round. */
  function Rescored(gs: seq<Task>, scores: seq<int>): (r: seq<Task>)
    requires |scores| == |gs|
    ensures |r| == |gs|
  {
    seq(|gs|, i requires 0 <= i < |gs| => WithScore(gs[i], scores[i]))
  }

  lemma RescoredInit(gs: seq<Task>, scores: seq<int>)
    requires |scores| == |gs| && gs != []
    ensures Rescored(gs, scores)[..|gs| - 1] == Rescored(gs[..|gs| - 1], scores[..|gs| - 1])
  {
  }

  /** Scoring changes no group's windows. */
  lemma {:induction false} RescoredFlatten(gs: seq<Task>, scores: seq<int>)
    requires |scores| == |gs|
    ensures Flatten(Rescored(gs, scores)) == Flatten(gs)
    decreases |gs|
  {
    if gs != [] {
      var n := |gs|;
      RescoredInit(gs, scores);
      RescoredFlatten(gs[..n - 1], scores[..n - 1]);
      assert WindowsOf(Rescored(gs, scores)[n - 1]) == WindowsOf(gs[n - 1]);
    }
  }

  /** Scoring changes no group's key. */
  lemma {:induction false} RescoredKeys(gs: seq<Task>, scores: seq<int>)
    requires |scores| == |gs|
    ensures Keys(Rescored(gs, scores)) == Keys(gs)
    decreases |gs|
  {
    if gs != [] {
      var n := |gs|;
      RescoredInit(gs, scores);
      RescoredKeys(gs[..n - 1], scores[..n - 1]);
      assert Key(Rescored(gs, scores)[n - 1]) == Key(gs[n - 1]);
    }
  }

  /** Scores no lower than the running maximum's start keep every group scored and populated. */
  lemma RescoredGroups(gs: seq<Task>, scores: seq<int>)
    requires |scores| == |gs| && forall i :: 0 <= i < |scores| ==> scores[i] >= MinScore
    requires Populated(gs)
    ensures AllScored(Rescored(gs, scores)) && Populated(Rescored(gs, scores))
    ensures TotalWindows(Rescored(gs, scores)) == TotalWindows(gs)
  {
    var r := Rescored(gs, scores);
    PopulatedAll(gs);
    PopulatedAll(r);
    forall t | t in r ensures Score(t) >= MinScore && WindowCount(t) >= 1 {
      var i :| 0 <= i < |r| && r[i] == t;
      assert gs[i] in gs;
    }
    RescoredFlatten(gs, scores);
    FlattenLength(gs);
    FlattenLength(r);
  }

  // ---------------------------------------------------------------------
  // Activating a window from its button

  /** What a click asks of the window manager (wnck_tasklist_activate_task_window). */
  datatype WindowAction =
    | Unminimize(switchTo: Option<nat>)  // switch to this workspace first
    | Minimize
    | Activate(switchTo: Option<nat>)

  /** The window is on the active workspace, or on none. */
  predicate OnActiveWorkspace(f: Filter, w: Window)
  {
    w.workspace.None? || (f.activeWorkspace.Some? && f.activeWorkspace.value.number == w.workspace.value)
  }

  // ---------------------------------------------------------------------
  // The invariant of the tasklist's state, and the steps that keep it

  /**
   * The lists partition the window tasks as the allocation expects, every
   * window and group task has a button, and the pressed buttons are those
   * of the active task and class group.
   */
  ghost predicate Inv(windows: seq<Task>, classGroups: seq<Task>, noClass: seq<Task>, startups: seq<Task>,
                      buttons: map<TaskKey, TaskOps.Button>, activeTask: Option<TaskKey>,
                      activeClassGroup: Option<TaskKey>)
  {
    Lists(windows, classGroups, noClass, startups) &&
    Keys(windows) + Keys(classGroups) <= buttons.Keys &&
    ButtonsShowActive(buttons, activeTask, activeClassGroup)
  }

  /** The buttons left once the window and group buttons are destroyed. */
  function StartupButtons(buttons: map<TaskKey, TaskOps.Button>): (r: map<TaskKey, TaskOps.Button>)
    ensures forall k :: k in r <==> k in buttons && k.StartupKey?
  {
    map k | k in buttons && k.StartupKey? :: buttons[k]
  }

  /** Freeing the tasks leaves a valid tasklist with nothing active. */
  lemma FreedInv(windows: seq<Task>, classGroups: seq<Task>, noClass: seq<Task>, startups: seq<Task>,
                 buttons: map<TaskKey, TaskOps.Button>, activeTask: Option<TaskKey>, activeClassGroup: Option<TaskKey>)
    requires Inv(windows, classGroups, noClass, startups, buttons, activeTask, activeClassGroup)
    ensures Inv([], [], [], startups, StartupButtons(buttons), None, None)
  {
    assert Flatten([]) == [];
  }

  /**
   * The buttons of a rebuilt tasklist: a fresh one per new window and group
   * task, and the surviving ones, less those of the startup sequences that
   * a new window has completed (`startups` before, `remaining` after), which
   * are destroyed.
   */
  function RebuiltButtons(buttons: map<TaskKey, TaskOps.Button>, windows: seq<Task>, classGroups: seq<Task>,
                          startups: seq<Task>, remaining: seq<Task>): (r: map<TaskKey, TaskOps.Button>)
    ensures r.Keys == Keys(windows) + Keys(classGroups) + (buttons.Keys - (Keys(startups) - Keys(remaining)))
    ensures forall k :: k in r && k in buttons ==> r[k] == buttons[k]
    ensures forall k :: k in r && k !in buttons ==> r[k] == Idle
  {
    map k | k in Keys(windows) + Keys(classGroups) + (buttons.Keys - (Keys(startups) - Keys(remaining))) ::
      if k in buttons then buttons[k] else Idle
  }

  /** Rebuilt lists with fresh buttons form a valid tasklist with nothing active. */
  lemma RebuiltInv(windows: seq<Task>, classGroups: seq<Task>, noClass: seq<Task>, startups: seq<Task>,
                   remaining: seq<Task>, buttons: map<TaskKey, TaskOps.Button>)
    requires Lists(windows, classGroups, noClass, remaining) && ButtonsShowActive(buttons, None, None)
    ensures Inv(windows, classGroups, noClass, remaining,
                RebuiltButtons(buttons, windows, classGroups, startups, remaining), None, None)
  {
  }

  /**
   * The lists wnck_tasklist_update_lists builds from the screen: the
   * included windows, the windows without a class group and the skipped
   * windows, each in the reverse of the screen's order; well-formed class
   * groups; and the startup sequences no window has ended.
   */
  ghost predicate Rebuilt(f: Filter, screen: seq<Window>, startups: seq<Task>, windows: seq<Task>,
                          classGroups: seq<Task>, noClass: seq<Task>, skipped: seq<Window>, remaining: seq<Task>)
  {
    && windows == Reversed(IncludedTasks(f, screen)) && noClass == Reversed(UnclassedTasks(f, screen))
    && skipped == Reversed(SkippedWindows(f, screen)) && remaining == StartupsLeft(f, screen, startups)
    && WellFormedGroups(classGroups)
  }

  /**
   * The active task wnck_tasklist_active_window_changed finds: the task of
   * the first window along the active window's transient-for chain that has
   * one; no task when no window on the chain has one.
   */
  ghost predicate ActiveFound(windows: seq<Task>, activeWindow: Option<nat>, transients: map<nat, nat>,
                              activeTask: Option<TaskKey>)
  {
    && (activeTask.Some? ==>
          activeWindow.Some? && activeTask.value.WinKey? &&
          exists k :: Navigation.FirstWithTask(Xids(windows), transients, activeWindow.value, k, activeTask.value.xid))
    && (activeTask.None? && activeWindow.Some? ==>
          forall k :: Navigation.Nth(transients, activeWindow.value, k).Some? ==>
            Navigation.Nth(transients, activeWindow.value, k).value !in Xids(windows))
  }

  /** The active class group is the group of the active task's window's class group, if there is one. */
  ghost predicate GroupOfActive(windows: seq<Task>, classGroups: seq<Task>, activeTask: Option<TaskKey>,
                                activeClassGroup: Option<TaskKey>)
  {
    activeTask.Some? ==>
      var i := Navigation.IndexOfKey(windows, activeTask.value);
      && i.Some? && windows[i.value].WindowTask?
      && activeClassGroup == GroupLookup(classGroups, windows[i.value].win.classGroup.id)
  }

  /**
   * The active task and class group found afresh, with nothing active
   * before: the found task's group, and no group without a task.
   */
  ghost predicate Refound(windows: seq<Task>, classGroups: seq<Task>, activeWindow: Option<nat>,
                          transients: map<nat, nat>, activeTask: Option<TaskKey>, activeClassGroup: Option<TaskKey>)
  {
    && ActiveFound(windows, activeWindow, transients, activeTask)
    && (activeTask.None? ==> activeClassGroup.None?)
    && GroupOfActive(windows, classGroups, activeTask, activeClassGroup)
  }

  /**
   * What wnck_tasklist_update_lists leaves: an unrealized tasklist has only
   * its startup tasks with their buttons and nothing active; a realized one
   * has the lists rebuilt from the screen, a button for every window and
   * group task, the buttons of the startup sequences still running, and the
   * active task found again.
   */
  ghost predicate Updated(realized: bool, f: Filter, screen: seq<Window>, startups: seq<Task>,
                          buttons: map<TaskKey, TaskOps.Button>, windows: seq<Task>,
                          classGroups: seq<Task>, noClass: seq<Task>, skipped: seq<Window>, startups': seq<Task>,
                          buttons': map<TaskKey, TaskOps.Button>,
                          activeTask: Option<TaskKey>, activeClassGroup: Option<TaskKey>,
                          activeWindow: Option<nat>, transients: map<nat, nat>)
  {
    if realized then
      && Rebuilt(f, screen, startups, windows, classGroups, noClass, skipped, startups')
      && Refound(windows, classGroups, activeWindow, transients, activeTask, activeClassGroup)
      && buttons'.Keys ==
         Keys(windows) + Keys(classGroups) + (StartupButtons(buttons).Keys - (Keys(startups) - Keys(startups')))
    else
      && windows == [] && classGroups == [] && noClass == [] && skipped == [] && startups' == startups
      && activeTask == None && activeClassGroup == None && buttons' == StartupButtons(buttons)
  }

  /** Startup sequences left by a rebuild are startup sequences that were there before. */
  lemma StartupsLeftKeys(f: Filter, screen: seq<Window>, startups: seq<Task>)
    ensures Keys(StartupsLeft(f, screen, startups)) <= Keys(startups)
  {
    var left := StartupsLeft(f, screen, startups);
    forall k | k in Keys(left)
      ensures k in Keys(startups)
    {
      KeysMember(left, k);
      var i :| 0 <= i < |left| && Key(left[i]) == k;
      assert left[i] in left;
      StartupsLeftMembers(f, screen, startups, left[i]);
      var j :| 0 <= j < |startups| && startups[j] == left[i];
      KeysMember(startups, k);
    }
  }

  /**
   * When every startup sequence had its button, the realized update leaves
   * exactly one button per window, group and remaining startup task.
   */
  lemma UpdatedButtonsExact(f: Filter, screen: seq<Window>, startups: seq<Task>,
                            buttons: map<TaskKey, TaskOps.Button>, windows: seq<Task>,
                            classGroups: seq<Task>, noClass: seq<Task>, skipped: seq<Window>, startups': seq<Task>,
                            buttons': map<TaskKey, TaskOps.Button>,
                            activeTask: Option<TaskKey>, activeClassGroup: Option<TaskKey>,
                            activeWindow: Option<nat>, transients: map<nat, nat>)
    requires Updated(true, f, screen, startups, buttons, windows, classGroups, noClass, skipped, startups',
                     buttons', activeTask, activeClassGroup, activeWindow, transients)
    requires StartupButtons(buttons).Keys == Keys(startups)
    ensures buttons'.Keys == Keys(windows) + Keys(classGroups) + Keys(startups')
  {
    StartupsLeftKeys(f, screen, startups);
  }

  /**
   * The rebuilding half of wnck_tasklist_update_lists on values: partition
   * the screen's windows and give every new task a button; with nothing
   * active, the result is a valid tasklist.
   */
  method Rebuild(f: Filter, screen: seq<Window>, startups: seq<Task>, buttons: map<TaskKey, TaskOps.Button>)
    returns (windows: seq<Task>, classGroups: seq<Task>, noClass: seq<Task>, skipped: seq<Window>,
             remaining: seq<Task>, buttons': map<TaskKey, TaskOps.Button>)
    requires AllStartupTasks(startups) && ButtonsShowActive(buttons, None, None)
    ensures Rebuilt(f, screen, startups, windows, classGroups, noClass, skipped, remaining)
    ensures buttons' == RebuiltButtons(buttons, windows, classGroups, startups, remaining)
    ensures Inv(windows, classGroups, noClass, remaining, buttons', None, None)
  {
    windows, classGroups, noClass, skipped, remaining := Partition(f, screen, startups);
    PartitionLists(f, screen, startups, windows, classGroups, noClass, remaining);
    RebuiltInv(windows, classGroups, noClass, startups, remaining, buttons);
    buttons' := RebuiltButtons(buttons, windows, classGroups, startups, remaining);
  }

  /**
   * The realized half of wnck_tasklist_update_lists on values: rebuild the
   * lists from the screen, then find the active task again.
   */
  method Refill(f: Filter, screen: seq<Window>, startups: seq<Task>, buttons: map<TaskKey, TaskOps.Button>,
                activeWindow: Option<nat>, transients: map<nat, nat>)
    returns (windows: seq<Task>, classGroups: seq<Task>, noClass: seq<Task>, skipped: seq<Window>,
             remaining: seq<Task>, buttons': map<TaskKey, TaskOps.Button>, activeTask: Option<TaskKey>,
             activeClassGroup: Option<TaskKey>)
    requires AllStartupTasks(startups) && ButtonsShowActive(buttons, None, None)
    ensures Rebuilt(f, screen, startups, windows, classGroups, noClass, skipped, remaining)
    ensures Refound(windows, classGroups, activeWindow, transients, activeTask, activeClassGroup)
    ensures buttons'.Keys == Keys(windows) + Keys(classGroups) + (buttons.Keys - (Keys(startups) - Keys(remaining)))
    ensures Inv(windows, classGroups, noClass, remaining, buttons', activeTask, activeClassGroup)
  {
    var b;
    windows, classGroups, noClass, skipped, remaining, b := Rebuild(f, screen, startups, buttons);
    buttons', activeTask, activeClassGroup :=
      ActiveChanged(windows, classGroups, noClass, remaining, b, None, None, activeWindow, transients);
  }

  /**
   * wnck_tasklist_update_lists on values: free the tasks, keeping the
   * startup tasks and their buttons, and when realized refill the lists.
   */
  method Update(realized: bool, f: Filter, screen: seq<Window>, windows: seq<Task>, classGroups: seq<Task>,
                noClass: seq<Task>, startups: seq<Task>, buttons: map<TaskKey, TaskOps.Button>,
                activeTask: Option<TaskKey>, activeClassGroup: Option<TaskKey>,
                activeWindow: Option<nat>, transients: map<nat, nat>)
    returns (windows': seq<Task>, classGroups': seq<Task>, noClass': seq<Task>, skipped': seq<Window>,
             startups': seq<Task>, buttons': map<TaskKey, TaskOps.Button>, activeTask': Option<TaskKey>,
             activeClassGroup': Option<TaskKey>)
    requires Inv(windows, classGroups, noClass, startups, buttons, activeTask, activeClassGroup)
    ensures Inv(windows', classGroups', noClass', startups', buttons', activeTask', activeClassGroup')
    ensures Updated(realized, f, screen, startups, buttons, windows', classGroups', noClass', skipped', startups',
                    buttons', activeTask', activeClassGroup', activeWindow, transients)
  {
    FreedInv(windows, classGroups, noClass, startups, buttons, activeTask, activeClassGroup);
    windows', classGroups', noClass', skipped', startups' := [], [], [], [], startups;
    buttons', activeTask', activeClassGroup' := StartupButtons(buttons), None, None;
    if realized {
      windows', classGroups', noClass', skipped', startups', buttons', activeTask', activeClassGroup' :=
        Refill(f, screen, startups, buttons', activeWindow, transients);
    }
  }

  /** New pressed states over the same buttons keep the tasklist valid when they show the active tasks. */
  lemma ButtonsChangedInv(windows: seq<Task>, classGroups: seq<Task>, noClass: seq<Task>, startups: seq<Task>,
                          buttons: map<TaskKey, TaskOps.Button>, activeTask: Option<TaskKey>,
                          activeClassGroup: Option<TaskKey>, buttons': map<TaskKey, TaskOps.Button>,
                          activeTask': Option<TaskKey>, activeClassGroup': Option<TaskKey>)
    requires Inv(windows, classGroups, noClass, startups, buttons, activeTask, activeClassGroup)
    requires buttons'.Keys == buttons.Keys && ButtonsShowActive(buttons', activeTask', activeClassGroup')
    ensures Inv(windows, classGroups, noClass, startups, buttons', activeTask', activeClassGroup')
  {
  }

  /** The window list is as long as the groups' windows and the windows without a group together. */
  lemma ListsCount(windows: seq<Task>, classGroups: seq<Task>, noClass: seq<Task>, startups: seq<Task>)
    requires Lists(windows, classGroups, noClass, startups)
    ensures |windows| == TotalWindows(classGroups) + |noClass|
  {
    FlattenLength(classGroups);
    assert |multiset(windows)| == |multiset(Flatten(classGroups))| + |multiset(noClass)|;
  }

  /** Rescoring the groups keeps the tasklist valid. */
  lemma RescoredInv(windows: seq<Task>, classGroups: seq<Task>, noClass: seq<Task>, startups: seq<Task>,
                    buttons: map<TaskKey, TaskOps.Button>, activeTask: Option<TaskKey>,
                    activeClassGroup: Option<TaskKey>, scores: seq<int>)
    requires Inv(windows, classGroups, noClass, startups, buttons, activeTask, activeClassGroup)
    requires |scores| == |classGroups| && forall i :: 0 <= i < |scores| ==> scores[i] >= MinScore
    ensures Inv(windows, Rescored(classGroups, scores), noClass, startups, buttons, activeTask, activeClassGroup)
  {
    RescoredFlatten(classGroups, scores);
    RescoredKeys(classGroups, scores);
    RescoredGroups(classGroups, scores);
  }

  /**
   * What the end of wnck_tasklist_size_allocate makes of the lists: the
   * groups take their scores, the visible buttons are those the grouping
   * policy leaves, laid out on the grid of the allocation, each task gets
   * the cell of its button, and the window list takes the order of the
   * buttons while keeping the same windows.
   */
  ghost predicate Reallocated(policy: Grouping, groupingLimit: int, maxWidth: int, maxHeight: int, alloc: Rect,
                              rtl: bool, scores: seq<int>, windows: seq<Task>, classGroups: seq<Task>,
                              noClass: seq<Task>, startups: seq<Task>, cells: map<TaskKey, Cell>,
                              grid: Geometry.Grid, visible: seq<Task>, classGroups': seq<Task>, windows': seq<Task>,
                              cells': map<TaskKey, Cell>)
  {
    && |scores| == |classGroups| && maxHeight >= 1
    && classGroups' == Rescored(classGroups, scores) && AllScored(classGroups')
    && visible == Visible(policy, Min(groupingLimit, maxWidth), SizesOf(alloc, maxWidth, maxHeight),
                          |windows| + |startups|, classGroups', noClass, startups)
    && grid == Geometry.Layout(alloc.width, alloc.height, maxHeight, |visible|)
    && windows' == Contributions(visible) && multiset(windows') == multiset(windows)
    && (visible != [] ==> grid.rows >= 1 && cells' == Placed(cells, visible, grid, rtl))
    && (visible == [] ==> cells' == cells)
  }

  /** The end of wnck_tasklist_size_allocate on the lists; the tasklist stays valid. */
  method Reallocate(policy: Grouping, groupingLimit: int, maxWidth: int, maxHeight: int, alloc: Rect, rtl: bool,
                    scores: seq<int>, windows: seq<Task>, classGroups: seq<Task>, noClass: seq<Task>,
                    startups: seq<Task>, buttons: map<TaskKey, TaskOps.Button>, activeTask: Option<TaskKey>,
                    activeClassGroup: Option<TaskKey>, cells: map<TaskKey, Cell>)
    returns (grid: Geometry.Grid, visible: seq<Task>, classGroups': seq<Task>, windows': seq<Task>,
             cells': map<TaskKey, Cell>)
    requires Inv(windows, classGroups, noClass, startups, buttons, activeTask, activeClassGroup) && maxHeight >= 1
    requires |scores| == |classGroups| && forall i :: 0 <= i < |scores| ==> scores[i] >= MinScore
    ensures Inv(windows', classGroups', noClass, startups, buttons, activeTask, activeClassGroup)
    ensures Reallocated(policy, groupingLimit, maxWidth, maxHeight, alloc, rtl, scores, windows, classGroups,
                        noClass, startups, cells, grid, visible, classGroups', windows', cells')
  {
    classGroups' := Rescored(classGroups, scores);
    RescoredInv(windows, classGroups, noClass, startups, buttons, activeTask, activeClassGroup, scores);
    ListsCount(windows, classGroups', noClass, startups);
    var rects;
    grid, visible, rects, windows', cells' :=
      Allocate(policy, groupingLimit, maxWidth, maxHeight, alloc, rtl, windows, classGroups', noClass, startups, cells);
    ReorderedInv(windows, classGroups', noClass, startups, buttons, activeTask, activeClassGroup, windows');
  }

  /** Reordering the window list keeps the tasklist valid. */
  lemma ReorderedInv(windows: seq<Task>, classGroups: seq<Task>, noClass: seq<Task>, startups: seq<Task>,
                     buttons: map<TaskKey, TaskOps.Button>, activeTask: Option<TaskKey>,
                     activeClassGroup: Option<TaskKey>, windows': seq<Task>)
    requires Inv(windows, classGroups, noClass, startups, buttons, activeTask, activeClassGroup)
    requires multiset(windows') == multiset(windows)
    ensures Inv(windows', classGroups, noClass, startups, buttons, activeTask, activeClassGroup)
  {
    KeysOfPermutation(windows', windows);
    forall t | t in windows' ensures t.WindowTask? {
      assert t in multiset(windows);
    }
  }

  /** Removing a startup task leaves a list without startup tasks as it is. */
  lemma {:induction false} RemoveStartupElsewhere(s: seq<Task>, k: TaskKey)
    requires k.StartupKey? && forall t :: t in s ==> !t.StartupTask?
    ensures RemoveTask(s, k) == s
  {
    if s != [] {
      assert s[0] in s;
      assert forall t :: t in s[1..] ==> t in s;
      RemoveStartupElsewhere(s[1..], k);
      assert [s[0]] + s[1..] == s;
    }
  }

  /** Removing a startup task touches no window or group list and keeps the tasklist valid. */
  lemma RemoveStartupInv(windows: seq<Task>, classGroups: seq<Task>, noClass: seq<Task>, startups: seq<Task>,
                         buttons: map<TaskKey, TaskOps.Button>, activeTask: Option<TaskKey>,
                         activeClassGroup: Option<TaskKey>, k: TaskKey)
    requires Inv(windows, classGroups, noClass, startups, buttons, activeTask, activeClassGroup) && k.StartupKey?
    ensures RemoveTask(windows, k) == windows && RemoveTask(classGroups, k) == classGroups
    ensures RemoveTask(noClass, k) == noClass
    ensures Inv(windows, classGroups, noClass, RemoveTask(startups, k), buttons - {k}, activeTask, activeClassGroup)
  {
    PopulatedAll(classGroups);
    RemoveStartupElsewhere(windows, k);
    RemoveStartupElsewhere(classGroups, k);
    forall t | t in noClass ensures t.WindowTask? {
      assert t in multiset(windows);
    }
    RemoveStartupElsewhere(noClass, k);
    StartupsStayStartups(startups, k);
    ButtonsWithoutStartup(buttons, activeTask, activeClassGroup, k);
    KeyKinds(windows, classGroups, startups, k);
  }

  /** What is left of a list of startup tasks after a removal is startup tasks. */
  lemma StartupsStayStartups(startups: seq<Task>, k: TaskKey)
    requires AllStartupTasks(startups)
    ensures AllStartupTasks(RemoveTask(startups, k))
  {
    RemoveTaskEffect(startups, k);
    forall t | t in RemoveTask(startups, k) ensures t.StartupTask? {
      assert t in multiset(startups);
    }
  }

  /** Dropping a startup button leaves the pressed buttons showing the same active task and group. */
  lemma ButtonsWithoutStartup(buttons: map<TaskKey, TaskOps.Button>, activeTask: Option<TaskKey>,
                              activeClassGroup: Option<TaskKey>, k: TaskKey)
    requires ButtonsShowActive(buttons, activeTask, activeClassGroup) && k.StartupKey?
    ensures ButtonsShowActive(buttons - {k}, activeTask, activeClassGroup)
  {
  }

  /**
   * wnck_tasklist_remove on the lists: the task with the key leaves each
   * list it is first found in, and its button goes; removing a startup task
   * keeps the tasklist valid.
   */
  method RemoveKey(windows: seq<Task>, classGroups: seq<Task>, noClass: seq<Task>, startups: seq<Task>,
                   buttons: map<TaskKey, TaskOps.Button>, activeTask: Option<TaskKey>,
                   activeClassGroup: Option<TaskKey>, k: TaskKey)
    returns (windows': seq<Task>, classGroups': seq<Task>, noClass': seq<Task>, startups': seq<Task>,
             buttons': map<TaskKey, TaskOps.Button>)
    ensures noClass' == RemoveTask(noClass, k) && windows' == RemoveTask(windows, k)
    ensures classGroups' == RemoveTask(classGroups, k) && startups' == RemoveTask(startups, k)
    ensures buttons' == buttons - {k}
    ensures k.StartupKey? && Inv(windows, classGroups, noClass, startups, buttons, activeTask, activeClassGroup) ==>
      Inv(windows', classGroups', noClass', startups', buttons', activeTask, activeClassGroup)
  {
    if k.StartupKey? && Inv(windows, classGroups, noClass, startups, buttons, activeTask, activeClassGroup) {
      RemoveStartupInv(windows, classGroups, noClass, startups, buttons, activeTask, activeClassGroup, k);
    }
    noClass' := RemoveFrom(noClass, k);
    windows' := RemoveFrom(windows, k);
    classGroups' := RemoveFrom(classGroups, k);
    startups' := RemoveFrom(startups, k);
    buttons' := buttons - {k};
  }

  // ---------------------------------------------------------------------
  // The active task on values

  /**
   * wnck_tasklist_change_active_task on the lists: the window task becomes
   * the active one and its class group the active class group, with the
   * buttons pressed accordingly; no task leaves the class group alone, and
   * an unchanged task changes nothing. The tasklist stays valid.
   */
  method ChangeActive(windows: seq<Task>, classGroups: seq<Task>, noClass: seq<Task>, startups: seq<Task>,
                      buttons: map<TaskKey, TaskOps.Button>, activeTask: Option<TaskKey>,
                      activeClassGroup: Option<TaskKey>, active: Option<Task>)
    returns (buttons': map<TaskKey, TaskOps.Button>, activeTask': Option<TaskKey>,
             activeClassGroup': Option<TaskKey>)
    requires Inv(windows, classGroups, noClass, startups, buttons, activeTask, activeClassGroup)
    requires active.Some? ==> active.value.WindowTask? && Key(active.value) in Keys(windows)
    ensures Inv(windows, classGroups, noClass, startups, buttons', activeTask', activeClassGroup')
    ensures buttons'.Keys == buttons.Keys
    ensures activeTask' == if active.Some? then Some(Key(active.value)) else None
    ensures active.Some? && activeTask == Some(Key(active.value)) ==>
      buttons' == buttons && activeClassGroup' == activeClassGroup
    ensures active.None? ==> activeClassGroup' == activeClassGroup
    ensures active.Some? && activeTask != Some(Key(active.value)) ==>
      activeClassGroup' == GroupLookup(classGroups, active.value.win.classGroup.id)
  {
    var task := if active.Some? then Some(Key(active.value)) else None;
    var group := if active.Some? then GroupLookup(classGroups, active.value.win.classGroup.id) else None;
    if active.Some? {
      KeyKinds(windows, classGroups, startups, Key(active.value));
    }
    if group.Some? {
      GroupLookupListed(classGroups, active.value.win.classGroup.id);
      KeyKinds(windows, classGroups, startups, group.value);
    }
    buttons', activeTask', activeClassGroup' := SwitchActive(buttons, activeTask, activeClassGroup, task, group);
    ButtonsChangedInv(windows, classGroups, noClass, startups, buttons, activeTask, activeClassGroup,
                      buttons', activeTask', activeClassGroup');
  }

  /**
   * wnck_tasklist_active_window_changed on the lists: the task of the active
   * window, or of the first window along its transient-for chain that has
   * one, becomes the active task; without one, no task is active.
   */
  method ActiveChanged(windows: seq<Task>, classGroups: seq<Task>, noClass: seq<Task>, startups: seq<Task>,
                       buttons: map<TaskKey, TaskOps.Button>, activeTask: Option<TaskKey>,
                       activeClassGroup: Option<TaskKey>, activeWindow: Option<nat>, transients: map<nat, nat>)
    returns (buttons': map<TaskKey, TaskOps.Button>, activeTask': Option<TaskKey>,
             activeClassGroup': Option<TaskKey>)
    requires Inv(windows, classGroups, noClass, startups, buttons, activeTask, activeClassGroup)
    ensures Inv(windows, classGroups, noClass, startups, buttons', activeTask', activeClassGroup')
    ensures buttons'.Keys == buttons.Keys
    ensures ActiveFound(windows, activeWindow, transients, activeTask')
    ensures activeTask'.None? ==> activeClassGroup' == activeClassGroup
    ensures activeTask'.Some? && activeTask' == activeTask ==>
      buttons' == buttons && activeClassGroup' == activeClassGroup
    ensures activeTask' != activeTask ==> GroupOfActive(windows, classGroups, activeTask', activeClassGroup')
  {
    var found := Navigation.FindActiveTask(Xids(windows), transients, activeWindow);
    if found.Some? {
      XidFound(windows, found.value);
      var i := Navigation.IndexOfKey(windows, WinKey(found.value)).value;
      KeysMember(windows, WinKey(found.value));
      assert windows[i] in windows;
      buttons', activeTask', activeClassGroup' :=
        ChangeActive(windows, classGroups, noClass, startups, buttons, activeTask, activeClassGroup, Some(windows[i]));
    } else {
      buttons', activeTask', activeClassGroup' :=
        ChangeActive(windows, classGroups, noClass, startups, buttons, activeTask, activeClassGroup, None);
    }
  }
}
